/** Runs of a whole cluster: any number of processes, each with its own view of every node, and a
    network that may lose, delay, duplicate and reorder deltas. */
module Runs {
  import opened Types
  import opened NodeStates
  import opened Replication
  import opened Reconciliation

  type Id = ChitchatId

  /** A node delta in flight.  `senderMax` and `upto` record the sender's maxVersion and the version the delta
      covers; they do not travel and no process reads them. */
  datatype Packet = Packet(to: Id, delta: NodeDelta, senderMax: Version, upto: Version)

  /** Where a view is kept and whom it is about. */
  datatype Link = Link(at: Id, about: Id)

  /** `logs` holds what each node that joined has written; `views[Link(p, id)]` is what process p knows about
      node id.  Packets stay in `net` when received (duplication) and need never be received (loss). */
  datatype Cluster = Cluster(logs: map<Id, Log>, views: map<Link, NodeView>, net: set<Packet>)

  const INIT := Cluster(map[], map[], {})

  datatype Step =
    | Join(p: Id)
    | LocalWrite(p: Id, op: OwnerOp, now: Instant)
    | CollectKeys(p: Id, id: Id, now: Instant, grace: Instant)
    | Hear(p: Id, id: Id)
    | Emit(p: Id, to: Id, digestGc: Version, digestMax: Version, delta: NodeDelta)
    | Receive(packet: Packet, at: Instant)
    | Forget(p: Id, id: Id)

  /** `ClusterState.NodeStateMut` starts a node that is not known yet from an empty state. */
  function ViewOf(c: Cluster, l: Link): NodeView {
    if l in c.views then c.views[l] else EMPTY_VIEW
  }

  ghost predicate Enabled(c: Cluster, step: Step) {
    match step
    case Join(p) => p !in c.logs
    case LocalWrite(p, _, _) => p in c.logs && Link(p, p) in c.views
    case CollectKeys(p, id, _, _) => Link(p, id) in c.views
    case Hear(p, id) => p in c.logs && id in c.logs
    case Emit(p, to, gc, max, d) =>
      && to in c.logs
      && Link(p, d.chitchatId) in c.views
      && DeltaFrom(c.views[Link(p, d.chitchatId)], gc, max, d)
    case Receive(packet, _) => packet in c.net
    case Forget(p, id) => id != p
  }

  /** One step.  `Emit` may answer any digest at all, however old. */
  ghost function Take(c: Cluster, step: Step): Cluster
    requires Enabled(c, step)
  {
    match step
    case Join(p) => c.(logs := c.logs[p := []], views := c.views[Link(p, p) := EMPTY_VIEW])
    case LocalWrite(p, op, now) =>
      var s := c.views[Link(p, p)];
      c.(logs := c.logs[p := LogAfter(c.logs[p], s, op)],
         views := c.views[Link(p, p) := OwnerWrite(s, op, now)])
    case CollectKeys(p, id, now, grace) =>
      c.(views := c.views[Link(p, id) := Collect(c.views[Link(p, id)], now, grace)])
    case Hear(p, id) => c.(views := c.views[Link(p, id) := ViewOf(c, Link(p, id))])
    case Emit(p, to, _, _, d) => c.(net := c.net + {Sent(c.views[Link(p, d.chitchatId)], to, d)})
    case Receive(packet, now) =>
      var l := Link(packet.to, packet.delta.chitchatId);
      c.(views := c.views[l := ApplyDelta(ViewOf(c, l), packet.delta, now)])
    case Forget(p, id) => c.(views := c.views - {Link(p, id)})
  }

  ghost function Sent(s: NodeView, to: Id, d: NodeDelta): Packet {
    Packet(to, d, s.maxVersion, CoveredUpTo(s, d))
  }

  ghost predicate Run(states: seq<Cluster>, steps: seq<Step>) {
    && |states| == |steps| + 1
    && states[0] == INIT
    && forall i | 0 <= i < |steps| :: Enabled(states[i], steps[i]) && states[i + 1] == Take(states[i], steps[i])
  }

  // ---------- genuineness ----------

  ghost predicate OwnerLevel(c: Cluster, p: Id)
    requires p in c.logs
  {
    Link(p, p) in c.views && c.views[Link(p, p)].maxVersion == |c.logs[p]|
  }

  ghost predicate GenuineLink(c: Cluster, l: Link)
    requires l in c.views
  {
    l.about in c.logs && Genuine(c.logs[l.about], c.views[l])
  }

  ghost predicate GenuinePacket(c: Cluster, packet: Packet) {
    var id := packet.delta.chitchatId;
    id in c.logs && GenuineDelta(c.logs[id], packet.delta)
  }

  /** Every entry held or in flight is its owner's write of that version, and owners are level with their logs. */
  ghost predicate AllGenuine(c: Cluster) {
    && (forall p | p in c.logs :: OwnerLevel(c, p))
    && (forall l | l in c.views :: GenuineLink(c, l))
    && (forall packet | packet in c.net :: GenuinePacket(c, packet))
  }

  /** A delta about a node that makes the node itself start over: it was collected up to the owner's last write,
      further than the owner's own state, starts no later and says how far it leads. */
  predicate Overrules(log: Log, s: NodeView, d: NodeDelta) {
    s.lastGcVersion < d.lastGcVersion == |log| && d.fromVersionExcluded <= |log| && DeltaMaxVersion(d).Some?
  }

  /** The receiver that starts over on the delta ends at version v. */
  predicate LeadsUpTo(d: NodeDelta, v: Version) {
    if d.keyValues == [] then d.maxVersion == Some(v)
    else
      var last := d.keyValues[|d.keyValues| - 1];
      last.version == v && !last.status.ScheduledForDeletion()
  }

  /** A delta about a node that makes the node itself start over, and leaves it short of its last write. */
  predicate SetsBack(log: Log, s: NodeView, d: NodeDelta) {
    Overrules(log, s, d) && !LeadsUpTo(d, |log|)
  }

  /** The step does not hand a node a delta about itself that sets it back. */
  predicate SparesOwner(c: Cluster, step: Step) {
    step.Receive? && step.packet.to == step.packet.delta.chitchatId && step.packet.to in c.logs ==>
      !SetsBack(c.logs[step.packet.to], ViewOf(c, Link(step.packet.to, step.packet.to)), step.packet.delta)
  }

  /** Nor one that overrules it. */
  predicate LeavesOwnerAlone(c: Cluster, step: Step) {
    step.Receive? && step.packet.to == step.packet.delta.chitchatId && step.packet.to in c.logs ==>
      !Overrules(c.logs[step.packet.to], ViewOf(c, Link(step.packet.to, step.packet.to)), step.packet.delta)
  }

  /** Exactly which genuine delta about a node changes that node's own state: one collected up to the owner's
      last write, further than the owner itself, that can be applied at all.  It makes the owner start over. */
  lemma OwnGossipIsNoOpExactly(log: Log, s: NodeView, d: NodeDelta, now: Instant)
    requires Genuine(log, s) && s.maxVersion == |log| && GenuineDelta(log, d)
    ensures ApplyDelta(s, d, now) == s <==> !Overrules(log, s, d)
  {
    ApplyDeltaProgress(s, d, now);
    forall i | 0 <= i < |d.keyValues| ensures !Accepts(s.maxVersion, s.lastGcVersion, d.keyValues[i]) {
      assert d.keyValues[i] in d.keyValues;
    }
  }

  /** Exactly which genuine delta leaves a node short of its own last write. */
  lemma OwnerStaysLevelExactly(log: Log, s: NodeView, d: NodeDelta, now: Instant)
    requires Genuine(log, s) && s.maxVersion == |log| && GenuineDelta(log, d)
    ensures ApplyDelta(s, d, now).maxVersion == |log| <==> !SetsBack(log, s, d)
  {
    OwnGossipIsNoOpExactly(log, s, d, now);
    if Overrules(log, s, d) {
      forall m | m in d.keyValues ensures m.version <= |log| {
      }
      if d.keyValues == [] {
        assert ApplyMutations(ResetView(d), ResetView(d).maxVersion, [], now) == ResetView(d);
      } else {
        ApplyMutationsProgress(ResetView(d), 0, d.keyValues, now);
        assert d.keyValues[|d.keyValues| - 1] in d.keyValues;
      }
    }
  }

  /** A view may be replaced by any genuine one; the owner's own must stay level. */
  lemma ReplaceKeepsGenuine(c: Cluster, l: Link, s: NodeView)
    requires AllGenuine(c) && l.about in c.logs && Genuine(c.logs[l.about], s)
    requires l.at == l.about ==> s.maxVersion == |c.logs[l.about]|
    ensures AllGenuine(c.(views := c.views[l := s]))
  {
    var c' := c.(views := c.views[l := s]);
    forall p | p in c'.logs ensures OwnerLevel(c', p) {
      assert OwnerLevel(c, p);
    }
    forall m | m in c'.views ensures GenuineLink(c', m) {
      assert m != l ==> GenuineLink(c, m);
    }
    forall packet | packet in c'.net ensures GenuinePacket(c', packet) {
      assert GenuinePacket(c, packet);
    }
  }

  lemma JoinKeepsGenuine(c: Cluster, p: Id)
    requires AllGenuine(c) && p !in c.logs
    ensures AllGenuine(Take(c, Join(p)))
  {
    var c' := Take(c, Join(p));
    forall q | q in c'.logs ensures OwnerLevel(c', q) {
      assert q != p ==> OwnerLevel(c, q);
    }
    forall l | l in c'.views ensures GenuineLink(c', l) {
      assert l != Link(p, p) ==> GenuineLink(c, l);
    }
    forall packet | packet in c'.net ensures GenuinePacket(c', packet) {
      assert GenuinePacket(c, packet);
    }
  }

  lemma ForgetKeepsGenuine(c: Cluster, p: Id, id: Id)
    requires AllGenuine(c) && id != p
    ensures AllGenuine(Take(c, Forget(p, id)))
  {
    var c' := Take(c, Forget(p, id));
    forall q | q in c'.logs ensures OwnerLevel(c', q) {
      assert OwnerLevel(c, q);
    }
    forall l | l in c'.views ensures GenuineLink(c', l) {
      assert GenuineLink(c, l);
    }
    forall packet | packet in c'.net ensures GenuinePacket(c', packet) {
      assert GenuinePacket(c, packet);
    }
  }

  lemma EmitKeepsGenuine(c: Cluster, p: Id, to: Id, gc: Version, max: Version, d: NodeDelta)
    requires AllGenuine(c) && Enabled(c, Emit(p, to, gc, max, d))
    ensures AllGenuine(Take(c, Emit(p, to, gc, max, d)))
  {
    var c', l := Take(c, Emit(p, to, gc, max, d)), Link(p, d.chitchatId);
    assert GenuineLink(c, l) && OwnerLevel(c, d.chitchatId);
    DeltaFromIsGenuine(c.logs[d.chitchatId], c.views[l], gc, max, d);
    forall q | q in c'.logs ensures OwnerLevel(c', q) {
      assert OwnerLevel(c, q);
    }
    forall m | m in c'.views ensures GenuineLink(c', m) {
      assert GenuineLink(c, m);
    }
    forall packet | packet in c'.net ensures GenuinePacket(c', packet) {
      assert packet in c.net ==> GenuinePacket(c, packet);
    }
  }

  lemma LocalWriteKeepsGenuine(c: Cluster, p: Id, op: OwnerOp, now: Instant)
    requires AllGenuine(c) && Enabled(c, LocalWrite(p, op, now))
    ensures AllGenuine(Take(c, LocalWrite(p, op, now)))
  {
    var c', s, log := Take(c, LocalWrite(p, op, now)), c.views[Link(p, p)], c.logs[p];
    assert OwnerLevel(c, p) && GenuineLink(c, Link(p, p));
    OwnerWriteKeepsGenuine(log, s, op, now);
    forall q | q in c'.logs ensures OwnerLevel(c', q) {
      assert OwnerLevel(c, q);
    }
    forall l | l in c'.views ensures GenuineLink(c', l) {
      assert GenuineLink(c, l);
      if l.about == p && l.at != p && TakesEffect(s, op) {
        LogGrowthKeepsFaithful(log, c'.logs[p][|log|], c.views[l]);
      }
    }
    forall packet | packet in c'.net ensures GenuinePacket(c', packet) {
      assert GenuinePacket(c, packet);
      if packet.delta.chitchatId == p && TakesEffect(s, op) {
        LogGrowthKeepsDelta(log, c'.logs[p][|log|], packet.delta, packet.senderMax, packet.upto);
      }
    }
  }

  lemma ReceiveKeepsGenuine(c: Cluster, packet: Packet, now: Instant)
    requires AllGenuine(c) && packet in c.net && SparesOwner(c, Receive(packet, now))
    ensures AllGenuine(Take(c, Receive(packet, now)))
  {
    var l := Link(packet.to, packet.delta.chitchatId);
    var s := ViewOf(c, l);
    assert GenuinePacket(c, packet) && OwnerLevel(c, l.about);
    assert l in c.views ==> GenuineLink(c, l);
    ApplyKeepsGenuine(c.logs[l.about], s, packet.delta, now);
    if l.at == l.about {
      OwnerStaysLevelExactly(c.logs[l.about], s, packet.delta, now);
    }
    ReplaceKeepsGenuine(c, l, ApplyDelta(s, packet.delta, now));
  }

  /** Exactly which receipts about the receiver itself keep the cluster genuine. */
  lemma SparesOwnerExactly(c: Cluster, packet: Packet, now: Instant)
    requires AllGenuine(c) && packet in c.net && packet.to == packet.delta.chitchatId
    ensures AllGenuine(Take(c, Receive(packet, now))) <==> SparesOwner(c, Receive(packet, now))
  {
    var l := Link(packet.to, packet.to);
    assert GenuinePacket(c, packet) && OwnerLevel(c, packet.to) && GenuineLink(c, l);
    if SparesOwner(c, Receive(packet, now)) {
      ReceiveKeepsGenuine(c, packet, now);
    } else {
      OwnerStaysLevelExactly(c.logs[packet.to], c.views[l], packet.delta, now);
      assert !OwnerLevel(Take(c, Receive(packet, now)), packet.to);
    }
  }

  /** Exactly which receipts about the receiver itself change nothing. */
  lemma LeavesOwnerAloneExactly(c: Cluster, packet: Packet, now: Instant)
    requires AllGenuine(c) && packet in c.net && packet.to == packet.delta.chitchatId
    ensures Take(c, Receive(packet, now)) == c <==> LeavesOwnerAlone(c, Receive(packet, now))
  {
    var l := Link(packet.to, packet.to);
    assert GenuinePacket(c, packet) && OwnerLevel(c, packet.to) && GenuineLink(c, l);
    OwnGossipIsNoOpExactly(c.logs[packet.to], c.views[l], packet.delta, now);
    assert c.views[l := c.views[l]] == c.views;
  }

  lemma StepKeepsGenuine(c: Cluster, step: Step)
    requires AllGenuine(c) && Enabled(c, step) && SparesOwner(c, step)
    ensures AllGenuine(Take(c, step))
  {
    match step
    case Join(p) => JoinKeepsGenuine(c, p);
    case LocalWrite(p, op, now) => LocalWriteKeepsGenuine(c, p, op, now);
    case CollectKeys(p, id, now, grace) =>
      var l := Link(p, id);
      assert GenuineLink(c, l) && OwnerLevel(c, id);
      CollectKeepsFaithful(c.logs[id], c.views[l], now, grace);
      ReplaceKeepsGenuine(c, l, Collect(c.views[l], now, grace));
    case Hear(p, id) =>
      var l := Link(p, id);
      assert l in c.views ==> GenuineLink(c, l);
      assert OwnerLevel(c, id);
      ReplaceKeepsGenuine(c, l, ViewOf(c, l));
    case Emit(p, to, gc, max, d) => EmitKeepsGenuine(c, p, to, gc, max, d);
    case Receive(packet, now) => ReceiveKeepsGenuine(c, packet, now);
    case Forget(p, id) => ForgetKeepsGenuine(c, p, id);
  }

  /** Genuineness over all runs.  As long as no node is set back about itself, every entry in any replica or
      delta in flight is the owner's write of that version, whatever is lost, duplicated, delayed, reordered,
      collected or forgotten. */
  lemma {:induction false} RunsAreGenuine(states: seq<Cluster>, steps: seq<Step>, n: nat)
    requires Run(states, steps) && n < |states|
    requires forall i | 0 <= i < n :: SparesOwner(states[i], steps[i])
    ensures AllGenuine(states[n])
  {
    if n > 0 {
      RunsAreGenuine(states, steps, n - 1);
      StepKeepsGenuine(states[n - 1], steps[n - 1]);
    }
  }

  /** In such runs gossip about a node's own state is a no-op on it, unless it overrules it. */
  lemma OwnGossipIsNoOpInRuns(states: seq<Cluster>, steps: seq<Step>, n: nat)
    requires Run(states, steps) && n < |steps|
    requires forall i | 0 <= i < n :: SparesOwner(states[i], steps[i])
    requires steps[n].Receive? && steps[n].packet.to == steps[n].packet.delta.chitchatId
    ensures states[n + 1] == states[n] <==> LeavesOwnerAlone(states[n], steps[n])
  {
    RunsAreGenuine(states, steps, n);
    LeavesOwnerAloneExactly(states[n], steps[n].packet, steps[n].at);
  }

  /** In such runs two replicas never disagree on a version of a node: same version, same key, value and status. */
  lemma ReplicasAgree(states: seq<Cluster>, steps: seq<Step>, n: nat, p: Id, q: Id, id: Id, j: Text, k: Text)
    requires Run(states, steps) && n < |states|
    requires forall i | 0 <= i < n :: SparesOwner(states[i], steps[i])
    requires Link(p, id) in states[n].views && j in states[n].views[Link(p, id)].keyValues
    requires Link(q, id) in states[n].views && k in states[n].views[Link(q, id)].keyValues
    requires states[n].views[Link(p, id)].keyValues[j].version == states[n].views[Link(q, id)].keyValues[k].version
    ensures MutationOf(j, states[n].views[Link(p, id)].keyValues[j]) == MutationOf(k, states[n].views[Link(q, id)].keyValues[k])
  {
    RunsAreGenuine(states, steps, n);
    var c := states[n];
    assert GenuineLink(c, Link(p, id)) && GenuineLink(c, Link(q, id));
    HeldIsWritten(c.logs[id], c.views[Link(p, id)], j);
    HeldIsWritten(c.logs[id], c.views[Link(q, id)], k);
  }

  // ---------- when nobody collects further than the owner ----------

  /** No process has collected the tombstones of a node further than that node itself. */
  ghost predicate CollectsBehindOwner(c: Cluster) {
    forall l | l in c.views && Link(l.about, l.about) in c.views ::
      c.views[l].lastGcVersion <= c.views[Link(l.about, l.about)].lastGcVersion
  }

  ghost predicate PacketBehindOwner(c: Cluster, packet: Packet) {
    var o := Link(packet.delta.chitchatId, packet.delta.chitchatId);
    o in c.views ==> packet.delta.lastGcVersion <= c.views[o].lastGcVersion
  }

  ghost predicate PacketsBehindOwner(c: Cluster) {
    forall packet | packet in c.net :: PacketBehindOwner(c, packet)
  }

  lemma BehindLeavesOwnersAlone(c: Cluster, step: Step)
    requires AllGenuine(c) && PacketsBehindOwner(c) && Enabled(c, step)
    ensures LeavesOwnerAlone(c, step) && SparesOwner(c, step)
  {
    if step.Receive? {
      assert GenuinePacket(c, step.packet) && PacketBehindOwner(c, step.packet);
      assert OwnerLevel(c, step.packet.delta.chitchatId);
    }
  }

  lemma StepKeepsPacketsBehind(c: Cluster, step: Step)
    requires AllGenuine(c) && CollectsBehindOwner(c) && PacketsBehindOwner(c) && Enabled(c, step)
    ensures PacketsBehindOwner(Take(c, step))
  {
    hide OwnerWrite, Collect, ApplyDelta, DeltaFrom;
    var c' := Take(c, step);
    BehindLeavesOwnersAlone(c, step);
    forall packet | packet in c'.net ensures PacketBehindOwner(c', packet) {
      var id := packet.delta.chitchatId;
      assert packet in c.net ==> GenuinePacket(c, packet) && PacketBehindOwner(c, packet);
      match step
      case Emit(p, _, gc, max, d) =>
        assert packet !in c.net ==> d == packet.delta && d.lastGcVersion == c.views[Link(p, id)].lastGcVersion by {
          SentGc(c, p, gc, max, d);
        }
      case LocalWrite(p, op, now) => WriteKeepsGc(c.views[Link(p, p)], op, now);
      case CollectKeys(p, about, now, grace) => CollectionRaisesGc(c.views[Link(p, about)], now, grace);
      case Receive(received, now) =>
        if received.to == received.delta.chitchatId {
          LeavesOwnerAloneExactly(c, received, now);
        }
      case _ =>
    }
  }

  lemma SentGc(c: Cluster, p: Id, gc: Version, max: Version, d: NodeDelta)
    requires Link(p, d.chitchatId) in c.views && DeltaFrom(c.views[Link(p, d.chitchatId)], gc, max, d)
    ensures d.lastGcVersion == c.views[Link(p, d.chitchatId)].lastGcVersion
  {
  }

  lemma WriteKeepsGc(s: NodeView, op: OwnerOp, now: Instant)
    ensures OwnerWrite(s, op, now).lastGcVersion == s.lastGcVersion
  {
  }

  lemma CollectionRaisesGc(s: NodeView, now: Instant, grace: Instant)
    ensures Collect(s, now, grace).lastGcVersion >= s.lastGcVersion
  {
  }

  lemma StartIsBehind()
    ensures AllGenuine(INIT) && PacketsBehindOwner(INIT)
  {
  }

  /** If in every state nobody has collected further than the owner, no node is ever overruled. */
  lemma {:induction false} CollectingBehindSparesOwners(states: seq<Cluster>, steps: seq<Step>, n: nat)
    requires Run(states, steps) && n < |states|
    requires forall i | 0 <= i < n :: CollectsBehindOwner(states[i])
    ensures AllGenuine(states[n]) && PacketsBehindOwner(states[n])
    ensures forall i | 0 <= i < n :: LeavesOwnerAlone(states[i], steps[i]) && SparesOwner(states[i], steps[i])
  {
    hide AllGenuine, PacketsBehindOwner, CollectsBehindOwner, LeavesOwnerAlone, SparesOwner, Take, Enabled;
    if n == 0 {
      StartIsBehind();
    } else {
      CollectingBehindSparesOwners(states, steps, n - 1);
      BehindLeavesOwnersAlone(states[n - 1], steps[n - 1]);
      StepKeepsGenuine(states[n - 1], steps[n - 1]);
      StepKeepsPacketsBehind(states[n - 1], steps[n - 1]);
    }
  }

  // ---------- the scuttlebutt invariant ----------

  ghost predicate CompleteLink(c: Cluster, l: Link)
    requires l in c.views
  {
    l.about in c.logs && Complete(c.logs[l.about], c.views[l])
  }

  ghost predicate FaithfulPacket(c: Cluster, packet: Packet) {
    var id := packet.delta.chitchatId;
    id in c.logs && FaithfulDelta(c.logs[id], packet.delta, packet.senderMax, packet.upto)
  }

  ghost predicate AllFaithful(c: Cluster) {
    && (forall l | l in c.views :: CompleteLink(c, l))
    && (forall packet | packet in c.net :: FaithfulPacket(c, packet))
  }

  /** The two hypotheses, for a step that receives a delta. */
  predicate SafeStep(c: Cluster, step: Step) {
    step.Receive? ==>
      SafeToReceive(ViewOf(c, Link(step.packet.to, step.packet.delta.chitchatId)), step.packet.delta, step.packet.senderMax)
  }

  lemma EmptyViewIsFaithful(log: Log)
    ensures Faithful(log, EMPTY_VIEW)
  {
    forall key ensures Current(log, EMPTY_VIEW, key) {
    }
  }

  lemma ReplaceKeepsFaithful(c: Cluster, l: Link, s: NodeView)
    requires AllFaithful(c) && l.about in c.logs && Complete(c.logs[l.about], s)
    ensures AllFaithful(c.(views := c.views[l := s]))
  {
    var c' := c.(views := c.views[l := s]);
    forall m | m in c'.views ensures CompleteLink(c', m) {
      assert m != l ==> CompleteLink(c, m);
    }
    forall packet | packet in c'.net ensures FaithfulPacket(c', packet) {
      assert FaithfulPacket(c, packet);
    }
  }

  lemma JoinKeepsFaithful(c: Cluster, p: Id)
    requires AllGenuine(c) && AllFaithful(c) && p !in c.logs
    ensures AllFaithful(Take(c, Join(p)))
  {
    var c' := Take(c, Join(p));
    EmptyViewIsFaithful([]);
    forall l | l in c'.views ensures CompleteLink(c', l) {
      assert l != Link(p, p) ==> CompleteLink(c, l);
    }
    forall packet | packet in c'.net ensures FaithfulPacket(c', packet) {
      assert FaithfulPacket(c, packet);
    }
  }

  lemma ForgetKeepsFaithful(c: Cluster, p: Id, id: Id)
    requires AllFaithful(c) && id != p
    ensures AllFaithful(Take(c, Forget(p, id)))
  {
    var c' := Take(c, Forget(p, id));
    forall l | l in c'.views ensures CompleteLink(c', l) {
      assert CompleteLink(c, l);
    }
    forall packet | packet in c'.net ensures FaithfulPacket(c', packet) {
      assert FaithfulPacket(c, packet);
    }
  }

  lemma EmitKeepsFaithful(c: Cluster, p: Id, to: Id, gc: Version, max: Version, d: NodeDelta)
    requires AllGenuine(c) && AllFaithful(c) && Enabled(c, Emit(p, to, gc, max, d))
    ensures AllFaithful(Take(c, Emit(p, to, gc, max, d)))
  {
    var c', l := Take(c, Emit(p, to, gc, max, d)), Link(p, d.chitchatId);
    assert CompleteLink(c, l) && GenuineLink(c, l);
    DeltaFromIsFaithful(c.logs[d.chitchatId], c.views[l], gc, max, d);
    forall m | m in c'.views ensures CompleteLink(c', m) {
      assert CompleteLink(c, m);
    }
    forall packet | packet in c'.net ensures FaithfulPacket(c', packet) {
      assert packet in c.net ==> FaithfulPacket(c, packet);
    }
  }

  lemma LocalWriteKeepsAllFaithful(c: Cluster, p: Id, op: OwnerOp, now: Instant)
    requires AllGenuine(c) && AllFaithful(c) && Enabled(c, LocalWrite(p, op, now))
    ensures AllFaithful(Take(c, LocalWrite(p, op, now)))
  {
    var c', s, log := Take(c, LocalWrite(p, op, now)), c.views[Link(p, p)], c.logs[p];
    assert OwnerLevel(c, p) && GenuineLink(c, Link(p, p)) && CompleteLink(c, Link(p, p));
    OwnerWriteKeepsFaithful(log, s, op, now);
    forall l | l in c'.views ensures CompleteLink(c', l) {
      assert GenuineLink(c, l) && CompleteLink(c, l);
      if l.about == p && l.at != p && TakesEffect(s, op) {
        LogGrowthKeepsFaithful(log, c'.logs[p][|log|], c.views[l]);
      }
    }
    forall packet | packet in c'.net ensures FaithfulPacket(c', packet) {
      assert FaithfulPacket(c, packet);
      if packet.delta.chitchatId == p && TakesEffect(s, op) {
        LogGrowthKeepsDelta(log, c'.logs[p][|log|], packet.delta, packet.senderMax, packet.upto);
      }
    }
  }

  lemma ReceiveKeepsAllFaithful(c: Cluster, packet: Packet, now: Instant)
    requires AllGenuine(c) && AllFaithful(c) && packet in c.net && SafeStep(c, Receive(packet, now))
    ensures AllFaithful(Take(c, Receive(packet, now)))
  {
    var l := Link(packet.to, packet.delta.chitchatId);
    assert GenuinePacket(c, packet) && FaithfulPacket(c, packet);
    assert l in c.views ==> GenuineLink(c, l) && CompleteLink(c, l);
    EmptyViewIsFaithful(c.logs[l.about]);
    ApplyKeepsFaithful(c.logs[l.about], ViewOf(c, l), packet.delta, packet.senderMax, packet.upto, now);
    ReplaceKeepsFaithful(c, l, ApplyDelta(ViewOf(c, l), packet.delta, now));
  }

  lemma StepKeepsFaithful(c: Cluster, step: Step)
    requires AllGenuine(c) && AllFaithful(c) && Enabled(c, step) && SafeStep(c, step)
    ensures AllFaithful(Take(c, step))
  {
    match step
    case Join(p) => JoinKeepsFaithful(c, p);
    case LocalWrite(p, op, now) => LocalWriteKeepsAllFaithful(c, p, op, now);
    case CollectKeys(p, id, now, grace) =>
      var l := Link(p, id);
      assert CompleteLink(c, l) && GenuineLink(c, l);
      CollectKeepsFaithful(c.logs[id], c.views[l], now, grace);
      ReplaceKeepsFaithful(c, l, Collect(c.views[l], now, grace));
    case Hear(p, id) =>
      var l := Link(p, id);
      EmptyViewIsFaithful(c.logs[id]);
      assert l in c.views ==> CompleteLink(c, l);
      ReplaceKeepsFaithful(c, l, ViewOf(c, l));
    case Emit(p, to, gc, max, d) => EmitKeepsFaithful(c, p, to, gc, max, d);
    case Receive(packet, now) => ReceiveKeepsAllFaithful(c, packet, now);
    case Forget(p, id) => ForgetKeepsFaithful(c, p, id);
  }

  /** The scuttlebutt invariant over all runs in which no node is set back about itself and each receipt meets the
      two hypotheses. */
  lemma {:induction false} RunsAreFaithful(states: seq<Cluster>, steps: seq<Step>, n: nat)
    requires Run(states, steps) && n < |states|
    requires forall i | 0 <= i < n :: SparesOwner(states[i], steps[i]) && SafeStep(states[i], steps[i])
    ensures AllFaithful(states[n])
  {
    if n > 0 {
      RunsAreGenuine(states, steps, n - 1);
      RunsAreFaithful(states, steps, n - 1);
      StepKeepsFaithful(states[n - 1], steps[n - 1]);
    }
  }

  /** From any state of such a run, one untruncated exchange between p and the owner `id` makes p agree with
      it on every key, unless p stands exactly at the owner's lastGcVersion without having collected as far. */
  lemma RunsConverge(states: seq<Cluster>, steps: seq<Step>, n: nat, p: Id, id: Id, d: NodeDelta, now: Instant)
    requires Run(states, steps) && n < |states|
    requires forall i | 0 <= i < n :: SparesOwner(states[i], steps[i]) && SafeStep(states[i], steps[i])
    requires id in states[n].logs
    requires var o, r := ViewOf(states[n], Link(id, id)), ViewOf(states[n], Link(p, id));
             && (r.maxVersion < o.maxVersion ==> DeltaFrom(o, r.lastGcVersion, r.maxVersion, d) && Untruncated(o, d))
             && !(r.lastGcVersion < o.lastGcVersion && r.maxVersion == o.lastGcVersion)
    ensures var o, r := ViewOf(states[n], Link(id, id)), ViewOf(states[n], Link(p, id));
            Converged(states[n].logs[id], o, AfterExchange(o, r, d, now))
  {
    var c, l, m := states[n], Link(id, id), Link(p, id);
    RunsAreGenuine(states, steps, n);
    RunsAreFaithful(states, steps, n);
    assert OwnerLevel(c, id) && GenuineLink(c, l) && CompleteLink(c, l);
    EmptyViewIsFaithful(c.logs[id]);
    assert m in c.views ==> GenuineLink(c, m) && CompleteLink(c, m);
    OneExchangeConverges(c.logs[id], ViewOf(c, l), ViewOf(c, m), d, now);
  }

  /** In particular if nobody ever collects further than the owner. */
  lemma RunsBehindOwnerAreFaithful(states: seq<Cluster>, steps: seq<Step>, n: nat)
    requires Run(states, steps) && n < |states|
    requires forall i | 0 <= i < n :: CollectsBehindOwner(states[i]) && SafeStep(states[i], steps[i])
    ensures AllGenuine(states[n]) && AllFaithful(states[n])
  {
    CollectingBehindSparesOwners(states, steps, n);
    RunsAreFaithful(states, steps, n);
  }
}
