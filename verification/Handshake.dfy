/** What a whole SYN, SYN-ACK, ACK handshake achieves, and whom it keeps quiet about. */
module Handshakes {
  import opened Types
  import opened NodeStates
  import opened Replication
  import opened Reconciliation
  import opened Streams
  import opened Deltas
  import opened PartialDeltas
  import opened MessageLimits
  import opened ClusterStates
  import opened SamplingWindows
  import opened FailureDetectors
  import opened Chitchats

  // ---------- heartbeats do not matter to the contents ----------

  predicate SameContents(s: NodeView, t: NodeView) {
    s.(heartbeat := t.heartbeat) == t
  }

  lemma SameContentsFaithful(log: Log, s: NodeView, t: NodeView)
    requires SameContents(s, t) && Faithful(log, s)
    ensures Faithful(log, t)
  {
    forall key | key in t.keyValues ensures GenuineEntry(log, t, key) {
      assert GenuineEntry(log, s, key);
    }
    forall key ensures Current(log, t, key) {
      assert Current(log, s, key);
    }
  }

  lemma HearingKeepsContents(self: ChitchatId, views: Views, digest: Digest, id: ChitchatId)
    ensures SameContents(ViewIn(views, id), ViewIn(AfterDigest(self, AfterSelfHeartbeat(self, views), digest), id))
    ensures SameContents(ViewIn(views, id), ViewIn(AfterSelfHeartbeat(self, views), id))
  {
  }

  // ---------- one reply ----------

  /** The peer's digest speaks of the state `r` of node `id`. */
  predicate Describes(digest: Digest, id: ChitchatId, r: NodeView) {
    DigestGc(digest, id) == r.lastGcVersion && DigestMax(digest, id) == r.maxVersion
  }

  /** Nothing was refused for want of space. */
  ghost predicate Whole(views: Views, digest: Digest, order: seq<ChitchatId>, taken: nat) {
    (forall id | id in order :: id in views) && taken == |GetOperations(FullNodeDeltas(views, digest, order))|
  }

  lemma OrderListsStale(z: Zstd, views: Views, digest: Digest, mtu: nat, scheduled: set<ChitchatId>,
                        order: seq<ChitchatId>, taken: nat, delta: Delta, id: ChitchatId)
    requires mtu > 0 && IsPartialDelta(z, views, digest, mtu, scheduled, order, taken, delta)
    ensures id in order <==> id in views && id !in scheduled && views[id].maxVersion > DigestMax(digest, id)
    ensures forall i, j | 0 <= i < j < |order| :: order[i] != order[j]
  {
    hide GetOperations, FullNodeDeltas, TakenGreedily, NoStalerThan, ScoreOf;
  }

  /** A reply by the owner that leaves nothing out brings its receiver to agree with it. */
  lemma WholeReplyConverges(log: Log, id: ChitchatId, views: Views, peer: Views, digest: Digest, z: Zstd, mtu: nat,
                            scheduled: set<ChitchatId>, order: seq<ChitchatId>, taken: nat, delta: Delta, now: Instant)
    requires id in views && id !in scheduled && Faithful(log, views[id]) && views[id].maxVersion == |log|
    requires Faithful(log, ViewIn(peer, id)) && Describes(digest, id, ViewIn(peer, id))
    requires mtu > 0 && IsPartialDelta(z, views, digest, mtu, scheduled, order, taken, delta)
    requires Whole(views, digest, order, taken)
    requires var o, r := views[id], ViewIn(peer, id);
             !(r.lastGcVersion < o.lastGcVersion && r.maxVersion == o.lastGcVersion)
    ensures Converged(log, views[id], ViewIn(ApplyNodeDeltas(peer, delta.nodeDeltas, now), id))
  {
    hide Faithful, Converged, GetOperations, FullNodeDeltas, IsPartialDelta, ApplyDelta, ApplyNodeDeltas, NoStalerThan, ScoreOf, DeltaFrom, Untruncated;
    var o, r, ds := views[id], ViewIn(peer, id), delta.nodeDeltas;
    PartialDeltasAreGapFree(z, views, digest, mtu, scheduled, order, taken, delta);
    OrderListsStale(z, views, digest, mtu, scheduled, order, taken, delta, id);
    assert forall i, j | 0 <= i < j < |ds| :: ds[i].chitchatId != ds[j].chitchatId;
    EachNodeGetsItsDelta(peer, ds, now, id);
    if r.maxVersion < o.maxVersion {
      var i :| 0 <= i < |order| && order[i] == id;
      assert ds[i] in ds && ds[i].chitchatId == id;
      OneExchangeConverges(log, o, r, ds[i], now);
    } else {
      assert forall d | d in ds :: d.chitchatId in order;
      var anything: NodeDelta := *;
      OneExchangeConverges(log, o, r, anything, now);
    }
  }

  // ---------- the whole handshake ----------

  ghost predicate OwnerState(log: Log, views: Views, id: ChitchatId) {
    id in views && Faithful(log, views[id]) && views[id].maxVersion == |log|
  }

  /** The replica does not stand exactly at the owner's lastGcVersion without having collected as far. */
  predicate Reconcilable(o: NodeView, r: NodeView) {
    !(r.lastGcVersion < o.lastGcVersion && r.maxVersion == o.lastGcVersion)
  }

  lemma DigestDescribes(views: Views, scheduled: set<ChitchatId>, id: ChitchatId, r: NodeView)
    requires id !in scheduled && SameContents(ViewIn(views, id), r)
    ensures Describes(DigestOfAll(views, scheduled), id, r)
  {
  }

  /** The second half of a handshake step: the node whose state was `before` takes the delta of a reply to a digest
      that described it. */
  lemma StepConverges(log: Log, self: ChitchatId, cluster: Text, id: ChitchatId, msg: Message, delta: Delta, asked: Digest,
                      before: Views, peer: Views, z: Zstd, mtu: nat, scheduled: set<ChitchatId>, order: seq<ChitchatId>,
                      taken: nat, now: Instant)
    requires OwnerState(log, peer, id) && id !in scheduled
    requires Faithful(log, ViewIn(before, id)) && Describes(asked, id, ViewIn(before, id))
    requires Reconcilable(peer[id], ViewIn(before, id))
    requires mtu > 0 && IsPartialDelta(z, peer, asked, mtu, scheduled, order, taken, delta) && Whole(peer, asked, order, taken)
    requires (msg.SynAck? || msg.Ack?) && msg.delta == delta
    ensures Converged(log, peer[id], ViewIn(AfterMessage(self, cluster, before, msg, now), id))
  {
    hide Faithful, Converged, IsPartialDelta, Whole, ApplyNodeDeltas, AfterDigest, AfterSelfHeartbeat;
    var beaten := AfterSelfHeartbeat(self, before);
    var heard := if msg.SynAck? then AfterDigest(self, beaten, msg.digest) else beaten;
    HearingKeepsContents(self, before, if msg.SynAck? then msg.digest else map[], id);
    SameContentsFaithful(log, ViewIn(before, id), ViewIn(heard, id));
    WholeReplyConverges(log, id, peer, heard, asked, z, mtu, scheduled, order, taken, delta, now);
  }

  /** A handshake between a and b that leaves nothing out.  a sends SYN in state `a0`; b answers in state `b1`,
      with SYN-ACK; a receives that in state `a2` and answers in state `a3`, with ACK; b receives that in state
      `b4`.  If the copy each has of the other did not change meanwhile, a then agrees with b about b, and b
      agrees with a about a. */
  lemma HandshakeConverges(
      a: ChitchatId, b: ChitchatId, cluster: Text, logA: Log, logB: Log,
      a0: Views, b1: Views, a2: Views, a3: Views, b4: Views,
      syn: Message, synAck: Message, ack: Message,
      z: Zstd, checks: bool, maxPayload: nat, digestLen: Digest -> nat,
      scheduledA0: set<ChitchatId>, scheduledB1: set<ChitchatId>, scheduledA3: set<ChitchatId>,
      orderB: seq<ChitchatId>, takenB: nat, orderA: seq<ChitchatId>, takenA: nat, then2: Instant, then4: Instant)
    // the messages are those the nodes send
    requires syn == Syn(cluster, DigestOfAll(a0, scheduledA0))
    requires IsOutcome(z, cluster, checks, maxPayload, digestLen, b1, syn, scheduledB1, Answered(Some(synAck)), orderB, takenB)
    requires a3 == AfterMessage(a, cluster, a2, synAck, then2)
    requires IsOutcome(z, cluster, checks, maxPayload, digestLen, a3, synAck, scheduledA3, Answered(Some(ack)), orderA, takenA)
    // nothing is left out
    requires Whole(b1, syn.digest, orderB, takenB) && Whole(a3, synAck.digest, orderA, takenA)
    requires a !in scheduledB1 && b !in scheduledB1 && a !in scheduledA3 && b !in scheduledA0
    // the copies did not change meanwhile, and are faithful
    requires SameContents(ViewIn(a0, b), ViewIn(a2, b)) && SameContents(ViewIn(b1, a), ViewIn(b4, a))
    requires Faithful(logB, ViewIn(a2, b)) && Faithful(logA, ViewIn(b4, a))
    requires OwnerState(logB, b1, b) && OwnerState(logA, a3, a)
    requires Reconcilable(b1[b], ViewIn(a2, b)) && Reconcilable(a3[a], ViewIn(b4, a))
    ensures Converged(logB, b1[b], ViewIn(a3, b))
    ensures Converged(logA, a3[a], ViewIn(AfterMessage(b, cluster, b4, ack, then4), a))
  {
    hide Faithful, Converged, IsPartialDelta, GapFree, KeepsMtu, DeltaMtu, Whole, AfterMessage, SameContents, Reconcilable, DigestOfAll, OwnerState;
    DigestDescribes(a0, scheduledA0, b, ViewIn(a2, b));
    DigestDescribes(b1, scheduledB1, a, ViewIn(b4, a));
    StepConverges(logB, a, cluster, b, synAck, synAck.delta, syn.digest, a2, b1, z,
                  DeltaMtu(checks, maxPayload, digestLen(synAck.digest)).value, scheduledB1, orderB, takenB, then2);
    StepConverges(logA, b, cluster, a, ack, ack.delta, synAck.digest, b4, a3, z,
                  DeltaMtu(checks, maxPayload, 0).value, scheduledA3, orderA, takenA, then4);
  }

  // ---------- quarantine ----------

  /** A node that a process removes had not been gossiped by it for the second half of its grace period: no digest
      and no delta drawn at a moment `q` in it, whatever detector state `j` was current then, mentions the node. */
  lemma RemovedNodesWereNotGossiped(
      c: Config, states: seq<DetectorView<ChitchatId>>, events: seq<DetectorEvent<ChitchatId>>, n: nat,
      id: ChitchatId, j: nat, q: Instant,
      views: Views, digest: Digest, z: Zstd, mtu: nat, order: seq<ChitchatId>, taken: nat, delta: Delta)
    requires Usable(c) && History(c, states, events) && j <= n < |events|
    requires events[n].Collection? && id in Collectible(c, states[n], events[n].at)
    requires (j > 0 ==> events[j - 1].at <= q) && q <= events[j].at
    requires states[n].dead[id] + c.deadNodeGracePeriod / 2.0 < q
    requires mtu > 0 && IsPartialDelta(z, views, digest, mtu, Scheduled(c, states[j], q), order, taken, delta)
    ensures id !in DigestOfAll(views, Scheduled(c, states[j], q))
    ensures forall d | d in delta.nodeDeltas :: d.chitchatId != id
  {
    hide IsPartialDelta, NoStalerThan, ScoreOf, DeltaFrom, Untruncated, GetOperations, FullNodeDeltas, Scheduled;
    RemovedNodesWereQuarantined(c, states, events, n, id, j, q);
    PartialDeltasAreGapFree(z, views, digest, mtu, Scheduled(c, states[j], q), order, taken, delta);
  }
}
