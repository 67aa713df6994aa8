/** One process of the gossip protocol: its cluster state, its failure detector, and the three-way handshake. */
module Chitchats {
  import opened Types
  import opened NodeStates
  import opened Codecs
  import opened Streams
  import opened Deltas
  import opened DeltaWire
  import opened PartialDeltas
  import opened MessageLimits
  import opened ClusterStates
  import opened SamplingWindows
  import opened FailureDetectors

  type Event = DetectorEvent<ChitchatId>

  datatype Message =
    | Syn(clusterId: Text, digest: Digest)
    | SynAck(digest: Digest, delta: Delta)
    | Ack(delta: Delta)
    | BadCluster

  /** What parses: the deltas a message carries come from `DecodeDelta`. */
  predicate Parses(msg: Message) {
    match msg
    case SynAck(_, delta) => WellFormed(delta.nodeDeltas)
    case Ack(delta) => WellFormed(delta.nodeDeltas)
    case _ => true
  }

  // ---------- heartbeats ----------

  /** The node states after hearing the heartbeats in a digest: the process does not listen to others about itself. */
  function AfterDigest(self: ChitchatId, views: Views, digest: Digest): Views {
    map id | id in views.Keys + (digest.Keys - {self}) ::
      if id in digest && id != self then WithHeartbeat(ViewIn(views, id), digest[id].heartbeat).0 else views[id]
  }

  /** The nodes of a digest whose heartbeat is news. */
  function News(self: ChitchatId, views: Views, digest: Digest): set<ChitchatId> {
    set id | id in digest && id != self && WithHeartbeat(ViewIn(views, id), digest[id].heartbeat).1
  }

  function AfterSelfHeartbeat(self: ChitchatId, views: Views): Views {
    views[self := ViewIn(views, self).(heartbeat := ViewIn(views, self).heartbeat + 1)]
  }

  /** The node states after a message. */
  function AfterMessage(self: ChitchatId, clusterId: Text, views: Views, msg: Message, now: Instant): Views {
    var beaten := AfterSelfHeartbeat(self, views);
    match msg
    case Syn(peerCluster, digest) => if peerCluster != clusterId then beaten else AfterDigest(self, beaten, digest)
    case SynAck(digest, delta) => ApplyNodeDeltas(AfterDigest(self, beaten, digest), delta.nodeDeltas, now)
    case Ack(delta) => ApplyNodeDeltas(beaten, delta.nodeDeltas, now)
    case BadCluster => beaten
  }

  /** The node's own state after it has set its initial entries. */
  function SetAll(s: NodeView, entries: seq<(Text, Text)>, now: Instant): NodeView {
    if entries == [] then s
    else
      var last := entries[|entries| - 1];
      OwnerWrite(SetAll(s, entries[..|entries| - 1], now), OpSet(last.0, last.1), now)
  }

  lemma {:induction false} SetAllKeepsVersions(s: NodeView, entries: seq<(Text, Text)>, now: Instant)
    requires VersionsBounded(s) && VersionsDistinct(s)
    ensures VersionsBounded(SetAll(s, entries, now)) && VersionsDistinct(SetAll(s, entries, now))
  {
    if entries != [] {
      var last, rest := entries[|entries| - 1], entries[..|entries| - 1];
      SetAllKeepsVersions(s, rest, now);
      WriteKeepsVersionsDistinct(SetAll(s, rest, now), OpSet(last.0, last.1), now);
    }
  }

  /** The nodes whose heartbeat a message brings news of. */
  function Heard(self: ChitchatId, clusterId: Text, views: Views, msg: Message): set<ChitchatId> {
    match msg
    case Syn(peerCluster, digest) => if peerCluster != clusterId then {} else News(self, AfterSelfHeartbeat(self, views), digest)
    case SynAck(digest, _) => News(self, AfterSelfHeartbeat(self, views), digest)
    case _ => {}
  }

  /** What becomes of a message: an answer, or none; or the process panics while it computes the answer. */
  datatype Outcome = Answered(reply: Option<Message>) | Crashed

  /** What a node whose state is `views` after a message does about it; `checks` says whether the build panics on an
      overflow. */
  ghost predicate IsOutcome(z: Zstd, clusterId: Text, checks: bool, maxPayload: nat, digestLen: Digest -> nat, views: Views,
                            msg: Message, scheduled: set<ChitchatId>, outcome: Outcome, order: seq<ChitchatId>, taken: nat)
  {
    match msg
    case Syn(peerCluster, digest) =>
      if peerCluster != clusterId then outcome == Answered(Some(BadCluster))
      else
        var own := DigestOfAll(views, scheduled);
        var mtu := DeltaMtu(checks, maxPayload, digestLen(own));
        (match outcome
         case Crashed => IsReplyDelta(z, views, digest, mtu, scheduled, order, taken, None)
         case Answered(reply) =>
           && reply.Some? && reply.value.SynAck? && reply.value.digest == own
           && IsReplyDelta(z, views, digest, mtu, scheduled, order, taken, Some(reply.value.delta)))
    case SynAck(digest, _) =>
      var mtu := DeltaMtu(checks, maxPayload, 0);
      (match outcome
       case Crashed => IsReplyDelta(z, views, digest, mtu, scheduled, order, taken, None)
       case Answered(reply) =>
         && reply.Some? && reply.value.Ack?
         && IsReplyDelta(z, views, digest, mtu, scheduled, order, taken, Some(reply.value.delta)))
    case _ => outcome == Answered(None)
  }

  /** The process calls back once for a delta some node delta of which starts at 0 and has a lastGcVersion. */
  predicate CatchesUp(delta: Delta) {
    exists d | d in delta.nodeDeltas :: d.fromVersionExcluded == 0 && d.lastGcVersion > 0
  }

  /** That is: exactly for a delta with a node delta from the start on which a state that knows nothing would start over. */
  lemma CatchesUpExactly(delta: Delta)
    ensures CatchesUp(delta) <==> exists d :: d in delta.nodeDeltas && d.fromVersionExcluded == 0 && OutOfSync(EMPTY_VIEW, d)
  {
  }

  predicate CatchesUpOn(msg: Message) {
    (msg.SynAck? || msg.Ack?) && CatchesUp(msg.delta)
  }

  // ---------- the watch on live nodes ----------

  /** The node itself and the nodes found alive, with their versions. */
  function LiveVersions(self: ChitchatId, views: Views, live: set<ChitchatId>): map<ChitchatId, Version> {
    map id | id in views && (id == self || id in live) :: views[id].maxVersion
  }

  /** What the watchers are sent: the live nodes that pass the extra test. */
  function LiveViews(views: Views, current: map<ChitchatId, Version>, extra: NodeView -> bool): Views {
    map id | id in views && id in current && extra(views[id]) :: views[id]
  }

  // ---------- what happens to the failure detector ----------

  /** Every node of `ids` is reported at `now`, each once. */
  ghost predicate Reports(events: seq<Event>, ids: set<ChitchatId>, now: Instant) {
    && (forall e | e in events :: e.Heartbeat? && e.at == now && e.id in ids)
    && (forall id | id in ids :: Heartbeat(id, now) in events)
    && (forall i, j | 0 <= i < j < |events| :: events[i] != events[j])
  }

  /** The liveness of every node of `ids` is checked at `now`, each once. */
  ghost predicate Checks(events: seq<Event>, ids: set<ChitchatId>, now: Instant) {
    && (forall e | e in events :: e.Liveness? && e.at == now && e.id in ids)
    && (forall id | id in ids :: Liveness(id, now) in events)
    && (forall i, j | 0 <= i < j < |events| :: events[i] != events[j])
  }

  class Chitchat {
    const self: ChitchatId
    const clusterId: Text
    const maxPayload: nat
    const zstd: Zstd
    const overflowChecks: bool
    /** Says which live nodes the watchers hear of. */
    const extraLiveness: NodeView -> bool
    /** The length of a digest on the wire. */
    const digestLen: Digest -> nat
    const clusterState: ClusterState
    const failureDetector: FailureDetector<ChitchatId>
    var previousLiveNodes: map<ChitchatId, Version>

    ghost predicate Valid()
      reads clusterState, clusterState.repr, failureDetector, failureDetector.repr
    {
      && clusterState.Valid() && failureDetector.Valid()
      && clusterState !in failureDetector.repr && failureDetector !in clusterState.repr
      && clusterState.repr !! failureDetector.repr
      && this !in clusterState.repr && this !in failureDetector.repr
      && Lawful(zstd) && VersionsOk(clusterState.views)
    }

    constructor (self: ChitchatId, clusterId: Text, maxPayload: nat, zstd: Zstd, digestLen: Digest -> nat,
                 overflowChecks: bool, extraLiveness: NodeView -> bool, config: Config, initial: seq<(Text, Text)>, now: Instant)
      requires Lawful(zstd)
      ensures Usable(config) ==> Valid()
      ensures fresh(clusterState) && fresh(clusterState.repr) && fresh(failureDetector) && fresh(failureDetector.repr)
      ensures clusterState.views == map[self := SetAll(EMPTY_VIEW.(heartbeat := 1), initial, now)]
      ensures failureDetector.View() == EmptyDetector() && failureDetector.config == config
      ensures this.self == self && this.clusterId == clusterId && this.maxPayload == maxPayload
      ensures this.zstd == zstd && this.digestLen == digestLen
      ensures this.overflowChecks == overflowChecks && this.extraLiveness == extraLiveness && previousLiveNodes == map[]
    {
      hide ClusterState.Valid, FailureDetector.Valid, OwnerWrite, VersionsOk;
      var states := SelfState(self, initial, now);
      var detector := new FailureDetector(config);
      this.self, this.clusterId, this.maxPayload, this.zstd, this.digestLen := self, clusterId, maxPayload, zstd, digestLen;
      this.overflowChecks, this.extraLiveness := overflowChecks, extraLiveness;
      clusterState, failureDetector, previousLiveNodes := states, detector, map[];
    }

    static method SelfState(self: ChitchatId, initial: seq<(Text, Text)>, now: Instant) returns (states: ClusterState)
      ensures states.Valid() && fresh(states) && fresh(states.repr) && VersionsOk(states.views)
      ensures states.views == map[self := SetAll(EMPTY_VIEW.(heartbeat := 1), initial, now)]
    {
      hide ClusterState.Valid, OwnerWrite;
      states := new ClusterState();
      states.IncHeartbeat(self);
      for n := 0 to |initial|
        invariant states.Valid() && fresh(states.repr)
        invariant states.views == map[self := SetAll(EMPTY_VIEW.(heartbeat := 1), initial[..n], now)]
      {
        assert initial[..n + 1][..n] == initial[..n];
        states.Write(self, OpSet(initial[n].0, initial[n].1), now);
      }
      assert initial[..|initial|] == initial;
      SetAllKeepsVersions(EMPTY_VIEW.(heartbeat := 1), initial, now);
    }

    method ReportHeartbeat(id: ChitchatId, heartbeat: nat, now: Instant) returns (ghost events: seq<Event>)
      requires Valid()
      modifies clusterState, clusterState.repr, failureDetector, failureDetector.repr
      ensures Valid()
      ensures fresh(clusterState.repr - old(clusterState.repr)) && fresh(failureDetector.repr - old(failureDetector.repr))
      ensures id == self ==> clusterState.views == old(clusterState.views) && events == []
      ensures id != self ==>
                var after := WithHeartbeat(ViewIn(old(clusterState.views), id), heartbeat);
                && clusterState.views == old(clusterState.views)[id := after.0]
                && events == if after.1 then [Heartbeat(id, now)] else []
      ensures failureDetector.View() == ObservedAll(failureDetector.config, old(failureDetector.View()), events)
    {
      hide ClusterState.Valid, FailureDetector.Valid;
      events := [];
      if id == self {
        return;
      }
      var isNews := clusterState.TrySetHeartbeat(id, heartbeat);
      if isNews {
        failureDetector.ReportHeartbeat(id, now);
        events := [Heartbeat(id, now)];
        assert events[..0] == [];
      }
    }

    method UpdateSelfHeartbeat()
      requires Valid()
      modifies clusterState, clusterState.repr
      ensures Valid() && fresh(clusterState.repr - old(clusterState.repr))
      ensures clusterState.views == AfterSelfHeartbeat(self, old(clusterState.views))
      ensures unchanged(failureDetector)
    {
      hide ClusterState.Valid, FailureDetector.Valid;
      clusterState.IncHeartbeat(self);
    }

    /** Listens to the heartbeats of a digest, node by node. */
    method ReportHeartbeatsInDigest(digest: Digest, now: Instant) returns (ghost events: seq<Event>)
      requires Valid()
      modifies clusterState, clusterState.repr, failureDetector, failureDetector.repr
      ensures Valid()
      ensures fresh(clusterState.repr - old(clusterState.repr)) && fresh(failureDetector.repr - old(failureDetector.repr))
      ensures clusterState.views == AfterDigest(self, old(clusterState.views), digest)
      ensures Reports(events, News(self, old(clusterState.views), digest), now)
      ensures failureDetector.View() == ObservedAll(failureDetector.config, old(failureDetector.View()), events)
    {
      hide Valid, WithHeartbeat, Observed, News, AfterDigest, Reports;
      events := [];
      ghost var views := clusterState.views;
      var todo := digest.Keys;
      NothingHeard(self, views, digest, now);
      while todo != {}
        invariant Valid() && todo <= digest.Keys
        invariant fresh(clusterState.repr - old(clusterState.repr)) && fresh(failureDetector.repr - old(failureDetector.repr))
        invariant clusterState.views == AfterDigest(self, views, digest - todo)
        invariant Reports(events, News(self, views, digest - todo), now)
        invariant failureDetector.View() == ObservedAll(failureDetector.config, old(failureDetector.View()), events)
        decreases todo
      {
        var id :| id in todo;
        OneMoreHeard(self, views, digest, todo, id);
        OneMoreReport(events, News(self, views, digest - todo), id, now);
        ghost var more := ReportHeartbeat(id, digest[id].heartbeat, now);
        ObservedConcat(failureDetector.config, old(failureDetector.View()), events, more);
        assert events + [] == events;
        assert forall ids: set<ChitchatId> :: ids + {} == ids;
        events := events + more;
        todo := todo - {id};
      }
      assert digest - {} == digest;
    }

    /** A gossip round starts with what the node knows, leaving out the nodes about to be deleted. */
    method CreateSyn(now: Instant) returns (msg: Message)
      requires Valid()
      ensures msg == Syn(clusterId, DigestOfAll(clusterState.views,
                                                Scheduled(failureDetector.config, failureDetector.View(), now)))
    {
      var scheduled := failureDetector.ScheduledForDeletionNodes(now);
      var digest := clusterState.ComputeDigest(scheduled);
      return Syn(clusterId, digest);
    }

    method ProcessDelta(delta: Delta, now: Instant) returns (catchUp: bool)
      requires Valid() && WellFormed(delta.nodeDeltas)
      modifies clusterState, clusterState.repr
      ensures Valid() && fresh(clusterState.repr - old(clusterState.repr))
      ensures clusterState.views == ApplyNodeDeltas(old(clusterState.views), delta.nodeDeltas, now)
      ensures catchUp <==> CatchesUp(delta)
      ensures unchanged(failureDetector)
    {
      hide ClusterState.Valid, FailureDetector.Valid, ApplyNodeDeltas, VersionsOk;
      DeltasKeepVersionsOk(clusterState.views, delta.nodeDeltas, now);
      catchUp := exists d | d in delta.nodeDeltas :: d.fromVersionExcluded == 0 && d.lastGcVersion > 0;
      clusterState.Apply(delta, now);
    }

    /** The delta for a peer, given its digest; nodes about to be deleted are left out. */
    method Reply(digest: Digest, digestLength: nat, now: Instant)
      returns (delta: Option<Delta>, ghost order: seq<ChitchatId>, ghost taken: nat)
      requires Valid()
      ensures IsReplyDelta(zstd, clusterState.views, digest, DeltaMtu(overflowChecks, maxPayload, digestLength),
                           Scheduled(failureDetector.config, failureDetector.View(), now), order, taken, delta)
    {
      hide IsReplyDelta, Lawful, VersionsOk;
      var scheduled := failureDetector.ScheduledForDeletionNodes(now);
      var views := clusterState.Snapshot();
      delta, order, taken := ReplyDelta(zstd, views, digest, DeltaMtu(overflowChecks, maxPayload, digestLength), scheduled);
    }

    /** One step of the handshake.  `order` and `taken` account for the delta of the reply, if there is one.  A panic
        comes after the message has had its effect on the state. */
    method ProcessMessage(msg: Message, now: Instant)
      returns (outcome: Outcome, catchUp: bool, ghost events: seq<Event>, ghost order: seq<ChitchatId>, ghost taken: nat)
      requires Valid() && Parses(msg)
      modifies clusterState, clusterState.repr, failureDetector, failureDetector.repr
      ensures Valid()
      ensures fresh(clusterState.repr - old(clusterState.repr)) && fresh(failureDetector.repr - old(failureDetector.repr))
      ensures clusterState.views == AfterMessage(self, clusterId, old(clusterState.views), msg, now)
      ensures failureDetector.View() == ObservedAll(failureDetector.config, old(failureDetector.View()), events)
      ensures Reports(events, Heard(self, clusterId, old(clusterState.views), msg), now)
      ensures catchUp <==> CatchesUpOn(msg)
      ensures IsOutcome(this.zstd, clusterId, overflowChecks, maxPayload, digestLen, clusterState.views, msg,
                        Scheduled(failureDetector.config, failureDetector.View(), now), outcome, order, taken)
    {
      hide Valid, IsReplyDelta, DeltaMtu, Reports, AfterDigest, News, ApplyNodeDeltas, DigestOfAll, Observed, CatchesUp;
      NothingIsReported(now);
      UpdateSelfHeartbeat();
      catchUp, events, order, taken := false, [], [], 0;
      match msg {
        case Syn(peerCluster, digest) =>
          if peerCluster != clusterId {
            return Answered(Some(BadCluster)), catchUp, events, order, taken;
          }
          events := ReportHeartbeatsInDigest(digest, now);
          var syn := CreateSyn(now);
          var delta;
          delta, order, taken := Reply(digest, digestLen(syn.digest), now);
          outcome := if delta.None? then Crashed else Answered(Some(SynAck(syn.digest, delta.value)));
        case SynAck(digest, delta) =>
          events := ReportHeartbeatsInDigest(digest, now);
          catchUp := ProcessDelta(delta, now);
          var answer;
          answer, order, taken := Reply(digest, 0, now);
          outcome := if answer.None? then Crashed else Answered(Some(Ack(answer.value)));
        case Ack(delta) =>
          catchUp := ProcessDelta(delta, now);
          outcome := Answered(None);
        case BadCluster =>
          outcome := Answered(None);
      }
    }

    /** Checks every other node, sends the live nodes to the watchers if one came, went or has a new version, then
        forgets the nodes that have been dead for the whole grace period. */
    method UpdateNodesLiveness(now: Instant) returns (removed: seq<ChitchatId>, sent: Option<Views>, ghost checks: seq<Event>)
      requires Valid() && Orderly(failureDetector.config, failureDetector.View(), now)
      modifies this`previousLiveNodes, clusterState, clusterState.repr, failureDetector, failureDetector.repr
      ensures Valid()
      ensures Checks(checks, old(clusterState.views).Keys - {self}, now)
      ensures failureDetector.View()
              == ObservedAll(failureDetector.config, old(failureDetector.View()), checks + [Collection(now)])
      ensures var judged := ObservedAll(failureDetector.config, old(failureDetector.View()), checks);
              && previousLiveNodes == LiveVersions(self, old(clusterState.views), judged.live)
              && (sent.None? <==> previousLiveNodes == old(previousLiveNodes))
              && (sent.Some? ==> sent.value == LiveViews(old(clusterState.views), previousLiveNodes, extraLiveness))
              && (forall id :: id in removed <==> id in Collectible(failureDetector.config, judged, now))
      ensures clusterState.views == old(clusterState.views) - (set id | id in removed)
    {
      hide FailureDetector.Valid, ClusterState.Valid, Orderly, Checks, LiveVersions, LiveViews;
      var nodes := clusterState.NodesBut(self);
      checks := CheckNodes(failureDetector, nodes, now);
      sent := NotifyWatchers();
      assert (checks + [Collection(now)])[..|checks|] == checks;
      removed := CollectNodes(now);
    }

    /** Sends the live nodes to the watchers if their set or their versions changed. */
    method NotifyWatchers() returns (sent: Option<Views>)
      requires Valid()
      modifies this`previousLiveNodes
      ensures Valid()
      ensures previousLiveNodes == LiveVersions(self, clusterState.views, failureDetector.View().live)
      ensures sent.None? <==> previousLiveNodes == old(previousLiveNodes)
      ensures sent.Some? ==> sent.value == LiveViews(clusterState.views, previousLiveNodes, extraLiveness)
    {
      hide ClusterState.Valid;
      var views := clusterState.Snapshot();
      var current := LiveVersions(self, views, failureDetector.liveNodes);
      if previousLiveNodes == current {
        return None;
      }
      previousLiveNodes := current;
      return Some(LiveViews(views, current, extraLiveness));
    }

    /** Checks the liveness of some nodes, in any order. */
    static method CheckNodes(detector: FailureDetector<ChitchatId>, nodes: set<ChitchatId>, now: Instant)
      returns (ghost events: seq<Event>)
      requires detector.Valid() && Orderly(detector.config, detector.View(), now)
      modifies detector, detector.repr
      ensures detector.Valid() && detector.repr == old(detector.repr)
      ensures Checks(events, nodes, now)
      ensures detector.View() == ObservedAll(detector.config, old(detector.View()), events)
    {
      assert Usable(detector.config);
      hide FailureDetector.Valid, FailureDetector.View, Observed, Orderly, Checks, AfterLiveness, WellSampled, Usable;
      events := [];
      var todo := nodes;
      NothingIsChecked(now);
      while todo != {}
        invariant detector.Valid() && todo <= nodes && detector.repr == old(detector.repr)
        invariant Orderly(detector.config, detector.View(), now)
        invariant Checks(events, nodes - todo, now)
        invariant detector.View() == ObservedAll(detector.config, old(detector.View()), events)
        decreases todo
      {
        var id :| id in todo;
        LivenessKeepsOrderly(detector.config, detector.View(), id, now);
        ObservedConcat(detector.config, old(detector.View()), events, [Liveness(id, now)]);
        OneMoreCheck(events, nodes - todo, id, now);
        detector.UpdateNodeLiveness(id, now);
        assert nodes - (todo - {id}) == nodes - todo + {id};
        todo, events := todo - {id}, events + [Liveness(id, now)];
      }
      assert nodes - {} == nodes;
    }

    /** Forgets the nodes that have been dead for the whole grace period. */
    method CollectNodes(now: Instant) returns (removed: seq<ChitchatId>)
      requires Valid()
      modifies clusterState, failureDetector
      ensures Valid()
      ensures failureDetector.View() == AfterCollection(failureDetector.config, old(failureDetector.View()), now)
      ensures forall id :: id in removed <==> id in Collectible(failureDetector.config, old(failureDetector.View()), now)
      ensures clusterState.views == old(clusterState.views) - (set id | id in removed)
    {
      hide FailureDetector.Valid, ClusterState.Valid;
      removed := failureDetector.GarbageCollect(now);
      label Collected:
      for n := 0 to |removed|
        invariant unchanged@Collected(failureDetector)
        invariant clusterState.Valid() && clusterState.repr == old(clusterState.repr)
        invariant clusterState.views == old(clusterState.views) - (set id | id in removed[..n])
      {
        clusterState.RemoveNode(removed[n]);
      }
      assert removed[..|removed|] == removed;
    }

    /** Collects the tombstones of every node state. */
    method GcKeysMarkedForDeletion(now: Instant, grace: Instant)
      requires Valid()
      modifies clusterState, clusterState.repr
      ensures Valid() && unchanged(failureDetector)
      ensures clusterState.views == CollectAll(old(clusterState.views), now, grace)
    {
      hide FailureDetector.Valid, ClusterState.Valid;
      CollectionKeepsVersionsOk(clusterState.views, now, grace);
      clusterState.GcKeysMarkedForDeletion(now, grace);
    }

    /** A write to the node's own state. */
    method WriteSelf(op: OwnerOp, now: Instant)
      requires Valid()
      modifies clusterState, clusterState.repr
      ensures Valid() && unchanged(failureDetector)
      ensures clusterState.views
              == old(clusterState.views)[self := OwnerWrite(ViewIn(old(clusterState.views), self), op, now)]
    {
      hide FailureDetector.Valid, ClusterState.Valid, OwnerWrite;
      WriteKeepsVersionsDistinct(ViewIn(clusterState.views, self), op, now);
      clusterState.Write(self, op, now);
    }
  }

  lemma LivenessKeepsOrderly(c: Config, v: DetectorView<ChitchatId>, id: ChitchatId, now: Instant)
    requires Usable(c) && Orderly(c, v, now)
    ensures WellSampled(c, SamplesOf(v, id), now)
    ensures Observed(c, v, Liveness(id, now)) == AfterLiveness(c, v, id, now)
    ensures Orderly(c, AfterLiveness(c, v, id, now), now)
  {
    EventKeepsOrderly(c, v, Liveness(id, now));
  }

  lemma NothingIsChecked(now: Instant)
    ensures Checks([], {}, now)
  {
  }

  lemma OneMoreCheck(events: seq<Event>, ids: set<ChitchatId>, id: ChitchatId, now: Instant)
    requires Checks(events, ids, now) && id !in ids
    ensures Checks(events + [Liveness(id, now)], ids + {id}, now)
  {
    assert forall e | e in events :: e.id in ids;
  }

  lemma CollectionKeepsVersionsOk(views: Views, now: Instant, grace: Instant)
    requires VersionsOk(views)
    ensures VersionsOk(CollectAll(views, now, grace))
  {
    forall id | id in views ensures VersionsBounded(Collect(views[id], now, grace)) && VersionsDistinct(Collect(views[id], now, grace)) {
      CollectionKeepsVersionsDistinct(views[id], now, grace);
    }
  }

  lemma NothingIsReported(now: Instant)
    ensures Reports([], {}, now)
  {
  }

  lemma NothingHeard(self: ChitchatId, views: Views, digest: Digest, now: Instant)
    ensures AfterDigest(self, views, digest - digest.Keys) == views
    ensures Reports([], News(self, views, digest - digest.Keys), now)
  {
    hide WithHeartbeat;
  }

  lemma OneMoreHeard(self: ChitchatId, views: Views, digest: Digest, todo: set<ChitchatId>, id: ChitchatId)
    requires id in todo && todo <= digest.Keys
    ensures var before, heard := AfterDigest(self, views, digest - todo), digest - (todo - {id});
            && News(self, views, heard)
               == News(self, views, digest - todo)
                  + (if id != self && WithHeartbeat(ViewIn(before, id), digest[id].heartbeat).1 then {id} else {})
            && id !in News(self, views, digest - todo)
            && AfterDigest(self, views, heard)
               == if id == self then before else before[id := WithHeartbeat(ViewIn(before, id), digest[id].heartbeat).0]
  {
    hide WithHeartbeat;
  }

  lemma OneMoreReport(events: seq<Event>, ids: set<ChitchatId>, id: ChitchatId, now: Instant)
    requires Reports(events, ids, now) && id !in ids
    ensures Reports(events + [Heartbeat(id, now)], ids + {id}, now)
  {
    assert forall e | e in events :: e.id in ids;
  }

  // ---------- how long an answer may be ----------

  /** The digest of a SYN-ACK, the limit of its delta and one byte make up the limit on messages; so the answer exceeds it
      by three bytes at most if its operations fit blocks, and by twelve in any case.  In an ACK there is no digest. */
  lemma AnswersNearlyKeepTheLimit(z: Zstd, clusterId: Text, checks: bool, maxPayload: nat, digestLen: Digest -> nat, views: Views,
                                  msg: Message, scheduled: set<ChitchatId>, reply: Message, order: seq<ChitchatId>, taken: nat)
    requires Lawful(z) && (reply.SynAck? || reply.Ack?)
    requires IsOutcome(z, clusterId, checks, maxPayload, digestLen, views, msg, scheduled, Answered(Some(reply)), order, taken)
    requires 1 + (if reply.SynAck? then digestLen(reply.digest) else 0) <= maxPayload
    ensures var own := if reply.SynAck? then digestLen(reply.digest) else 0;
            var len := HEADER_LEN + own + reply.delta.serializedLen;
            && (msg.Syn? || msg.SynAck?)
            && (exists mtu: nat | mtu > 0 && own + mtu + 1 == maxPayload ::
                  IsPartialDelta(z, views, msg.digest, mtu, scheduled, order, taken, reply.delta))
            && (FitBlocks(BLOCK_THRESHOLD, GetOperations(reply.delta.nodeDeltas)) ==> len <= maxPayload + 3)
            && len <= maxPayload + 12
  {
    hide IsPartialDelta, GapFree, FitBlocks, GetOperations, Lawful;
    var own := if reply.SynAck? then digestLen(reply.digest) else 0;
    RepliesNearlyKeepTheLimit(z, views, msg.digest, checks, maxPayload, own, scheduled, order, taken, reply.delta);
    var mtu: nat := maxPayload - 1 - own;
    assert IsPartialDelta(z, views, msg.digest, mtu, scheduled, order, taken, reply.delta);
  }

  // ---------- a node that has just started ----------

  /** What a node knows once it has started. */
  function Started(self: ChitchatId, initial: seq<(Text, Text)>, now: Instant): Views {
    map[self := SetAll(EMPTY_VIEW.(heartbeat := 1), initial, now)]
  }

  function InitialOf(lens: seq<nat>): seq<(Text, Text)> {
    seq(|lens|, i requires 0 <= i < |lens| => (KeyOf(i), Zeros(lens[i])))
  }

  lemma {:induction false} SetAllMakes(lens: seq<nat>, now: Instant)
    requires |lens| < TWO_TO_THE_64
    ensures SetAll(EMPTY_VIEW.(heartbeat := 1), InitialOf(lens), now) == ViewWith(1, lens)
  {
    if lens != [] {
      hide KeyOf, Zeros, OwnerWrite;
      var n := |lens| - 1;
      SetAllMakes(lens[..n], now);
      assert InitialOf(lens)[..n] == InitialOf(lens[..n]);
      OneMoreEntry(lens, now);
    }
  }

  lemma OneMoreEntry(lens: seq<nat>, now: Instant)
    requires 0 < |lens| < TWO_TO_THE_64
    ensures var n := |lens| - 1;
            OwnerWrite(ViewWith(1, lens[..n]), OpSet(KeyOf(n), Zeros(lens[n])), now) == ViewWith(1, lens)
  {
    hide KeyOf, Zeros;
    var n := |lens| - 1;
    EntriesAre(lens[..n]);
    if KeyOf(n) in EntriesOf(lens[..n]) {
      var i: nat :| IsEntry(lens[..n], KeyOf(n), EntriesOf(lens[..n])[KeyOf(n)], i);
      KeysDiffer(i, n);
    }
  }

  /** A SYN-ACK without a delta leaves everything but heartbeats as it was. */
  lemma StartedAndAsked(self: ChitchatId, clusterId: Text, initial: seq<(Text, Text)>, digest: Digest, startedAt: Instant, now: Instant)
    ensures var own := SetAll(EMPTY_VIEW.(heartbeat := 1), initial, startedAt);
            var after := AfterMessage(self, clusterId, Started(self, initial, startedAt), SynAck(digest, Delta([], 0)), now);
            && self in after && after[self] == own.(heartbeat := own.heartbeat + 1)
            && (forall id | id in after && id != self :: after[id].maxVersion == 0)
            && (digest == map[] ==> after == map[self := own.(heartbeat := own.heartbeat + 1)])
  {
    hide SetAll;
  }

  // ---------- an answer that is too long ----------

  /** After the message the node answers with an ACK three bytes over the limit, with operations of at most a block,
      none of which compresses. */
  ghost predicate AckTooLong(self: ChitchatId, clusterId: Text, checks: bool, maxPayload: nat, digestLen: Digest -> nat,
                             before: Views, msg: Message, now: Instant,
                             scheduled: set<ChitchatId>, delta: Delta, order: seq<ChitchatId>, taken: nat)
  {
    var views := AfterMessage(self, clusterId, before, msg, now);
    && VersionsOk(views) && msg.SynAck?
    && IsOutcome(NO_GAIN, clusterId, checks, maxPayload, digestLen, views, msg, scheduled, Answered(Some(Ack(delta))), order, taken)
    && FitBlocks(BLOCK_THRESHOLD, GetOperations(delta.nodeDeltas))
    && HEADER_LEN + delta.serializedLen == maxPayload + 3
  }

  lemma AckFillsTheLimit(self: ChitchatId, clusterId: Text, checks: bool, maxPayload: nat, digestLen: Digest -> nat,
                         before: Views, msg: Message, now: Instant,
                         scheduled: set<ChitchatId>, delta: Delta, order: seq<ChitchatId>, taken: nat)
    requires msg.SynAck? && 101 <= maxPayload
    ensures AckTooLong(self, clusterId, checks, maxPayload, digestLen, before, msg, now, scheduled, delta, order, taken)
            <==> FillsTheLimit(AfterMessage(self, clusterId, before, msg, now), msg.digest, maxPayload - 1, scheduled, order, taken, delta)
  {
    hide VersionsOk, FitBlocks, GetOperations, IsPartialDelta, GapFree, Lawful, AfterMessage;
    var views := AfterMessage(self, clusterId, before, msg, now);
    if IsPartialDelta(NO_GAIN, views, msg.digest, maxPayload - 1, scheduled, order, taken, delta) {
      PartialDeltasAreGapFree(NO_GAIN, views, msg.digest, maxPayload - 1, scheduled, order, taken, delta);
    }
  }

  lemma AckAnswersSynAck(self: ChitchatId, clusterId: Text, checks: bool, maxPayload: nat, digestLen: Digest -> nat,
                         before: Views, msg: Message, now: Instant,
                         scheduled: set<ChitchatId>, delta: Delta, order: seq<ChitchatId>, taken: nat)
    requires AckTooLong(self, clusterId, checks, maxPayload, digestLen, before, msg, now, scheduled, delta, order, taken)
    ensures msg.SynAck?
  {
  }

  /** For which limits a node answers with an ACK three bytes too long: in whatever state it is, for none of three in
      every 16387; for all others, just after it started, with some initial entries. */
  lemma AckTooLongExactly(clusterId: Text, checks: bool, maxPayload: nat, digestLen: Digest -> nat)
    requires 101 <= maxPayload <= TWO_TO_THE_64
    ensures (exists self, before, msg, now, scheduled, delta, order, taken ::
               AckTooLong(self, clusterId, checks, maxPayload, digestLen, before, msg, now, scheduled, delta, order, taken))
            <==> (maxPayload - 1) % 16_387 !in {2, 3, 4}
    ensures (maxPayload - 1) % 16_387 !in {2, 3, 4} ==>
              exists initial, msg, delta, taken ::
                AckTooLong(NODE, clusterId, checks, maxPayload, digestLen, Started(NODE, initial, 0.0), msg, 0.0, {}, delta, [NODE], taken)
  {
    hide AckTooLong, FillsTheLimit, Started;
    if (maxPayload - 1) % 16_387 !in {2, 3, 4} {
      var initial, msg, delta, taken := LongAck(clusterId, checks, maxPayload, digestLen);
    }
    forall self, before, msg, now, scheduled, delta, order, taken |
      AckTooLong(self, clusterId, checks, maxPayload, digestLen, before, msg, now, scheduled, delta, order, taken)
      ensures (maxPayload - 1) % 16_387 !in {2, 3, 4}
    {
      assert msg.SynAck? by {
        AckAnswersSynAck(self, clusterId, checks, maxPayload, digestLen, before, msg, now, scheduled, delta, order, taken);
      }
      AckFillsTheLimit(self, clusterId, checks, maxPayload, digestLen, before, msg, now, scheduled, delta, order, taken);
      FilledLen(AfterMessage(self, clusterId, before, msg, now), msg.digest, maxPayload - 1, scheduled, order, taken, delta);
    }
  }

  lemma LongAck(clusterId: Text, checks: bool, maxPayload: nat, digestLen: Digest -> nat)
    returns (initial: seq<(Text, Text)>, msg: Message, delta: Delta, taken: nat)
    requires 101 <= maxPayload <= TWO_TO_THE_64 && (maxPayload - 1) % 16_387 !in {2, 3, 4}
    ensures AckTooLong(NODE, clusterId, checks, maxPayload, digestLen, Started(NODE, initial, 0.0), msg, 0.0, {}, delta, [NODE], taken)
  {
    hide AckTooLong, FillsTheLimit, AfterMessage, EntriesOf, SetAll;
    var n := PlainLengthExists(maxPayload - 1);
    var lens;
    lens, taken, delta := LengthIsReached(2, maxPayload - 1, n);
    initial, msg := InitialOf(lens), SynAck(map[], Delta([], 0));
    SetAllMakes(lens, 0.0);
    StartedAndAsked(NODE, clusterId, initial, map[], 0.0, 0.0);
    AckFillsTheLimit(NODE, clusterId, checks, maxPayload, digestLen, Started(NODE, initial, 0.0), msg, 0.0, {}, delta, [NODE], taken);
  }

  // ---------- no answer at all ----------

  /** The entry is so long that `append` panics on it, and fits nevertheless. */
  predicate Oversized(maxPayload: nat, id: ChitchatId, key: Text, value: Text) {
    && OpLen(HeaderOp(id)) <= BLOCK_THRESHOLD && OpLen(EntryOp(key, value)) >= TWO_TO_THE_16
    && OpLen(HeaderOp(id)) + OpLen(EntryOp(key, value)) + 8 <= maxPayload
  }

  /** A node that has a single entry for a peer that knows nothing of it, and an oversized one, panics on the SYN-ACK,
      whatever the compressor. */
  lemma LongValueCrashes(z: Zstd, clusterId: Text, checks: bool, maxPayload: nat, digestLen: Digest -> nat, views: Views,
                         msg: Message, scheduled: set<ChitchatId>, id: ChitchatId, key: Text, value: Text,
                         outcome: Outcome, order: seq<ChitchatId>, taken: nat)
    requires msg.SynAck? && SingleStale(views, msg.digest, scheduled, id, key, value) && Oversized(maxPayload, id, key, value)
    requires IsOutcome(z, clusterId, checks, maxPayload, digestLen, views, msg, scheduled, outcome, order, taken)
    ensures outcome.Crashed?
  {
    hide GapFree, KeepsMtu, IsOversized, IsPartialDelta, OpLen, HeaderOp, EntryOp, SingleStale;
    var mtu := maxPayload - 1;
    LongValuePanicsExactly(z, views, msg.digest, mtu, scheduled, id, key, value);
    var other, n :| IsOversized(z, views, msg.digest, mtu, scheduled, other, n);
    if outcome.Answered? {
      assert IsPartialDelta(z, views, msg.digest, mtu, scheduled, order, taken, outcome.reply.value.delta);
      OnlyOneOutcome(z, views, msg.digest, mtu, scheduled, id, key, value, other, n, order, taken, outcome.reply.value.delta);
    }
  }

  /** Where the order of a single node runs into a panic, no delta is computed. */
  lemma OnlyOneOutcome(z: Zstd, views: Views, digest: Digest, mtu: nat, scheduled: set<ChitchatId>, id: ChitchatId, key: Text,
                       value: Text, other: seq<ChitchatId>, n: nat, order: seq<ChitchatId>, taken: nat, delta: Delta)
    requires mtu > 0 && SingleStale(views, digest, scheduled, id, key, value)
    requires IsOversized(z, views, digest, mtu, scheduled, other, n)
    ensures !IsPartialDelta(z, views, digest, mtu, scheduled, order, taken, delta)
  {
    hide PanicsAt, TakenGreedily, GetOperations, FullNodeDeltas, NoStalerThan, ScoreOf, StaleNodes, Cut, EncodeStream, IsOrder;
    if IsPartialDelta(z, views, digest, mtu, scheduled, order, taken, delta) {
      SingleOrder(views, digest, StaleNodes(views, digest, scheduled), id, other);
      SingleOrder(views, digest, StaleNodes(views, digest, scheduled), id, order);
      StopIsUnique(z, mtu, GetOperations(FullNodeDeltas(views, digest, order)), n, taken);
    }
  }

  /** Heartbeats alone schedule nobody for deletion. */
  lemma {:induction false} NobodyDies(c: Config, v: DetectorView<ChitchatId>, events: seq<Event>)
    requires v.dead == map[] && forall e | e in events :: e.Heartbeat?
    ensures ObservedAll(c, v, events).dead == map[]
  {
    if events != [] {
      hide AfterReport;
      assert events[|events| - 1] in events;
      NobodyDies(c, v, events[..|events| - 1]);
      ReportKillsNobody(c, ObservedAll(c, v, events[..|events| - 1]), events[|events| - 1].id, events[|events| - 1].at);
    }
  }

  lemma ReportKillsNobody(c: Config, v: DetectorView<ChitchatId>, id: ChitchatId, at: Instant)
    ensures AfterReport(c, v, id, at).dead == v.dead
  {
  }

  lemma StartedWithOne(self: ChitchatId, clusterId: Text, key: Text, value: Text, digest: Digest, startedAt: Instant, now: Instant)
    requires DigestGc(digest, self) == DigestMax(digest, self) == 0
    ensures SingleStale(AfterMessage(self, clusterId, Started(self, [(key, value)], startedAt), SynAck(digest, Delta([], 0)), now),
                        digest, {}, self, key, value)
  {
    hide AfterMessage;
    StartedAndAsked(self, clusterId, [(key, value)], digest, startedAt, now);
    assert [(key, value)][..0] == [];
  }

  /** A node that starts with one oversized entry panics on the first SYN-ACK from a peer that knows nothing of it. */
  method StartAndCrash(self: ChitchatId, clusterId: Text, maxPayload: nat, zstd: Zstd, digestLen: Digest -> nat, overflowChecks: bool,
                       extraLiveness: NodeView -> bool, config: Config, key: Text, value: Text, digest: Digest,
                       startedAt: Instant, now: Instant)
    returns (outcome: Outcome)
    requires Usable(config) && Lawful(zstd) && Oversized(maxPayload, self, key, value)
    requires DigestGc(digest, self) == DigestMax(digest, self) == 0
    ensures outcome.Crashed?
  {
    hide Chitchat.Valid, Lawful, Oversized, AfterMessage, IsOutcome, SingleStale, SetAll, Heard, ObservedAll;
    var chitchat := new Chitchat(self, clusterId, maxPayload, zstd, digestLen, overflowChecks, extraLiveness, config,
                                 [(key, value)], startedAt);
    assert chitchat.clusterState.views == Started(self, [(key, value)], startedAt);
    var msg := SynAck(digest, Delta([], 0));
    var catchUp;
    ghost var events, order, taken;
    outcome, catchUp, events, order, taken := chitchat.ProcessMessage(msg, now);
    StartedWithOne(self, clusterId, key, value, digest, startedAt, now);
    NobodyDies(config, EmptyDetector(), events);
    assert Scheduled(config, chitchat.failureDetector.View(), now) == {};
    LongValueCrashes(zstd, clusterId, overflowChecks, maxPayload, digestLen, chitchat.clusterState.views, msg, {}, self, key, value,
                     outcome, order, taken);
  }
}
