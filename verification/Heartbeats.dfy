/** Heartbeats: how they travel with digests, what a failure detector is told of them, and that nodes which gossip often
    enough are never found dead. */
module Heartbeats {
  import opened Types
  import opened NodeStates
  import opened Streams
  import opened Deltas
  import opened PartialDeltas
  import opened ClusterStates
  import opened SamplingWindows
  import opened FailureDetectors
  import opened Suspicions
  import opened Chitchats

  /** What a failure detector observes. */
  type Sighting = DetectorEvent<ChitchatId>

  // ---------- one message ----------

  /** A message of the same cluster with this digest. */
  predicate Tells(msg: Message, clusterId: Text, digest: Digest) {
    (msg.Syn? && msg.clusterId == clusterId && msg.digest == digest) || (msg.SynAck? && msg.digest == digest)
  }

  /** A delta leaves the heartbeat of a node alone, unless it makes the state start over, without one. */
  lemma {:induction false} DeltasAndHeartbeats(views: Views, ds: seq<NodeDelta>, now: Instant, p: ChitchatId)
    ensures var s, t := ViewIn(views, p), ViewIn(ApplyNodeDeltas(views, ds, now), p);
            s.lastGcVersion <= t.lastGcVersion && t.heartbeat == if s.lastGcVersion < t.lastGcVersion then 0 else s.heartbeat
    ensures p in views ==> p in ApplyNodeDeltas(views, ds, now)
  {
    if ds != [] {
      hide ApplyDelta;
      var n := |ds| - 1;
      DeltasAndHeartbeats(views, ds[..n], now, p);
      DeltaAndHeartbeat(ViewIn(ApplyNodeDeltas(views, ds[..n], now), p), ds[n], now);
    }
  }

  lemma DeltaAndHeartbeat(s: NodeView, d: NodeDelta, now: Instant)
    ensures var t := ApplyDelta(s, d, now);
            s.lastGcVersion <= t.lastGcVersion && t.heartbeat == if s.lastGcVersion < t.lastGcVersion then 0 else s.heartbeat
  {
    ApplyMutationsProgress(s, s.maxVersion, d.keyValues, now);
    ApplyMutationsProgress(ResetView(d), ResetView(d).maxVersion, d.keyValues, now);
  }

  /** A digest drawn from `views` brings its receiver the heartbeat of every other node in it: the greater of the two is
      kept, unless the delta that comes with it makes the state of the node start over. */
  lemma HeartbeatsArrive(self: ChitchatId, clusterId: Text, before: Views, msg: Message, now: Instant,
                         views: Views, scheduled: set<ChitchatId>, p: ChitchatId)
    requires Tells(msg, clusterId, DigestOfAll(views, scheduled)) && p in views && p !in scheduled && p != self
    ensures var after := AfterMessage(self, clusterId, before, msg, now);
            && p in after
            && (if ViewIn(before, p).lastGcVersion < after[p].lastGcVersion then msg.SynAck? && after[p].heartbeat == 0
                else after[p].heartbeat == Max(ViewIn(before, p).heartbeat, views[p].heartbeat))
  {
    hide ApplyDelta, ApplyNodeDeltas;
    var heard := AfterDigest(self, AfterSelfHeartbeat(self, before), msg.digest);
    assert p in heard && heard[p].heartbeat == Max(ViewIn(before, p).heartbeat, views[p].heartbeat);
    assert heard[p].lastGcVersion == ViewIn(before, p).lastGcVersion;
    if msg.SynAck? {
      DeltasAndHeartbeats(heard, msg.delta.nodeDeltas, now, p);
    }
  }

  /** The detector is told of a node exactly if its heartbeat went up and was not the first one heard. */
  lemma HeartbeatsAreReported(self: ChitchatId, clusterId: Text, before: Views, msg: Message, now: Instant,
                              views: Views, scheduled: set<ChitchatId>, events: seq<Sighting>, p: ChitchatId)
    requires Tells(msg, clusterId, DigestOfAll(views, scheduled)) && Reports(events, Heard(self, clusterId, before, msg), now)
    ensures Heartbeat(p, now) in events
            <==> p in views && p !in scheduled && p != self && 0 < ViewIn(before, p).heartbeat < views[p].heartbeat
    ensures forall e | e in events :: e.Heartbeat? && e.at == now
  {
  }

  /** The process's own heartbeat goes up with every message, whatever the message says. */
  lemma OwnHeartbeatGoesUp(self: ChitchatId, clusterId: Text, before: Views, msg: Message, now: Instant)
    ensures var after := AfterMessage(self, clusterId, before, msg, now);
            && self in after
            && (if ViewIn(before, self).lastGcVersion < after[self].lastGcVersion then after[self].heartbeat == 0
                else after[self].heartbeat == ViewIn(before, self).heartbeat + 1)
  {
    hide ApplyNodeDeltas;
    var beaten := AfterSelfHeartbeat(self, before);
    match msg
    case SynAck(digest, delta) => DeltasAndHeartbeats(AfterDigest(self, beaten, digest), delta.nodeDeltas, now, self);
    case Ack(delta) => DeltasAndHeartbeats(beaten, delta.nodeDeltas, now, self);
    case _ =>
  }

  /** A SYN of another cluster is answered by BAD-CLUSTER, and changes nothing but the own heartbeat. */
  lemma OtherClustersAreRefused(self: ChitchatId, clusterId: Text, checks: bool, maxPayload: nat, digestLen: Digest -> nat, z: Zstd,
                                before: Views, msg: Message, now: Instant, events: seq<Sighting>,
                                scheduled: set<ChitchatId>, outcome: Outcome, order: seq<ChitchatId>, taken: nat)
    requires msg.Syn? && msg.clusterId != clusterId
    requires Reports(events, Heard(self, clusterId, before, msg), now)
    requires IsOutcome(z, clusterId, checks, maxPayload, digestLen, AfterMessage(self, clusterId, before, msg, now), msg, scheduled,
                       outcome, order, taken)
    ensures outcome == Answered(Some(BadCluster)) && events == []
    ensures forall p | p != self :: var after := AfterMessage(self, clusterId, before, msg, now);
                                    (p in after <==> p in before) && (p in before ==> after[p] == before[p])
  {
    if events != [] {
      SomethingHeard(events, Heard(self, clusterId, before, msg), now);
    }
  }

  lemma SomethingHeard(events: seq<Sighting>, ids: set<ChitchatId>, now: Instant)
    requires Reports(events, ids, now) && events != []
    ensures ids != {}
  {
    assert events[0] in events;
  }

  // ---------- one look at the others ----------

  /** The detector says the same about the node. */
  predicate SameOf(v: DetectorView<ChitchatId>, w: DetectorView<ChitchatId>, id: ChitchatId) {
    && (id in v.live <==> id in w.live) && (id in v.dead <==> id in w.dead) && (id in v.dead ==> v.dead[id] == w.dead[id])
    && SamplesOf(v, id) == SamplesOf(w, id)
  }

  /** A check goes by what the detector says of the node, and concerns no other. */
  lemma CheckConcernsOne(c: Config, v: DetectorView<ChitchatId>, w: DetectorView<ChitchatId>, id: ChitchatId, now: Instant, p: ChitchatId)
    ensures id != p ==> SameOf(Observed(c, v, Liveness(id, now)), v, p)
    ensures id == p && SameOf(v, w, p) ==> SameOf(Observed(c, v, Liveness(p, now)), Observed(c, w, Liveness(p, now)), p)
  {
    hide Alive;
  }

  lemma SameOfBoth(u: DetectorView<ChitchatId>, v: DetectorView<ChitchatId>, w: DetectorView<ChitchatId>, p: ChitchatId)
    requires SameOf(u, v, p) && SameOf(v, w, p)
    ensures SameOf(u, w, p)
  {
  }

  /** Checks of nodes, each once, judge each by what was known before any of them. */
  lemma {:induction false} EachIsJudgedOnce(c: Config, v: DetectorView<ChitchatId>, checks: seq<Sighting>, now: Instant, p: ChitchatId)
    requires forall e | e in checks :: e.Liveness? && e.at == now
    requires forall i, j | 0 <= i < j < |checks| :: checks[i] != checks[j]
    ensures SameOf(ObservedAll(c, v, checks), if Liveness(p, now) in checks then Observed(c, v, Liveness(p, now)) else v, p)
  {
    hide Observed, SameOf;
    if checks == [] {
      SameAsItself(v, p);
    } else {
      var init, e := checks[..|checks| - 1], checks[|checks| - 1];
      assert checks == init + [e] && e in checks && forall x | x in init :: x in checks;
      EachIsJudgedOnce(c, v, init, now, p);
      var before := ObservedAll(c, v, init);
      CheckConcernsOne(c, before, v, e.id, now, p);
      if e.id == p {
        assert e !in init;
      } else {
        SameOfBoth(Observed(c, before, e), before, if Liveness(p, now) in checks then Observed(c, v, Liveness(p, now)) else v, p);
      }
    }
  }

  lemma SameAsItself(v: DetectorView<ChitchatId>, p: ChitchatId)
    ensures SameOf(v, v, p)
  {
  }

  /** A report concerns one node, and goes by what was known of it. */
  lemma ReportConcernsOne(c: Config, v: DetectorView<ChitchatId>, w: DetectorView<ChitchatId>, id: ChitchatId, now: Instant, p: ChitchatId)
    ensures id != p ==> SameOf(Observed(c, v, Heartbeat(id, now)), v, p)
    ensures id == p && SameOf(v, w, p) ==> SameOf(Observed(c, v, Heartbeat(p, now)), Observed(c, w, Heartbeat(p, now)), p)
  {
    hide AfterHeartbeat;
  }

  lemma {:induction false} EachIsSampledOnce(c: Config, v: DetectorView<ChitchatId>, events: seq<Sighting>, now: Instant, p: ChitchatId)
    requires forall e | e in events :: e.Heartbeat? && e.at == now
    requires forall i, j | 0 <= i < j < |events| :: events[i] != events[j]
    ensures SameOf(ObservedAll(c, v, events), if Heartbeat(p, now) in events then Observed(c, v, Heartbeat(p, now)) else v, p)
  {
    hide Observed, SameOf;
    if events == [] {
      SameAsItself(v, p);
    } else {
      var init, e := events[..|events| - 1], events[|events| - 1];
      assert events == init + [e] && e in events && forall x | x in init :: x in events;
      EachIsSampledOnce(c, v, init, now, p);
      var before := ObservedAll(c, v, init);
      ReportConcernsOne(c, before, v, e.id, now, p);
      if e.id == p {
        assert e !in init;
      } else {
        SameOfBoth(Observed(c, before, e), before, if Heartbeat(p, now) in events then Observed(c, v, Heartbeat(p, now)) else v, p);
      }
    }
  }

  /** What a digest drawn from `views` makes of the samples of a node: one heartbeat more, now, exactly if it went up and
      was not the first one heard; and nothing else. */
  lemma DigestsAreSampledOnce(self: ChitchatId, clusterId: Text, before: Views, msg: Message, now: Instant, views: Views,
                              scheduled: set<ChitchatId>, events: seq<Sighting>, c: Config, v: DetectorView<ChitchatId>, p: ChitchatId)
    requires Tells(msg, clusterId, DigestOfAll(views, scheduled)) && Reports(events, Heard(self, clusterId, before, msg), now)
    ensures var after, news := ObservedAll(c, v, events), p in views && p !in scheduled && p != self
                                                           && 0 < ViewIn(before, p).heartbeat < views[p].heartbeat;
            SameOf(after, if news then Observed(c, v, Heartbeat(p, now)) else v, p)
  {
    hide Observed, ObservedAll, SameOf;
    HeartbeatsAreReported(self, clusterId, before, msg, now, views, scheduled, events, p);
    EachIsSampledOnce(c, v, events, now, p);
  }

  /** A look at the others judges every other node the process knows, by what its detector knew before, then forgets
      exactly those that have been dead for the grace period. */
  lemma LooksJudgeEveryone(self: ChitchatId, c: Config, v: DetectorView<ChitchatId>, views: Views, checks: seq<Sighting>,
                           now: Instant, removed: seq<ChitchatId>, p: ChitchatId)
    requires Checks(checks, views.Keys - {self}, now) && p in views && p != self
    requires forall id :: id in removed <==> id in Collectible(c, ObservedAll(c, v, checks), now)
    ensures var judged := Observed(c, v, Liveness(p, now));
            && SameOf(ObservedAll(c, v, checks), judged, p)
            && (p in removed <==> p in judged.dead && judged.dead[p] + c.deadNodeGracePeriod <= now)
  {
    hide Observed, ObservedAll;
    EachIsJudgedOnce(c, v, checks, now, p);
  }

  // ---------- the watch on live nodes ----------

  /** The watchers' nodes are the node itself and those found alive, as far as they are known; the value sent has the
      states of those that pass the extra test. */
  lemma WatchedExactly(self: ChitchatId, views: Views, live: set<ChitchatId>, extra: NodeView -> bool, p: ChitchatId)
    ensures var current := LiveVersions(self, views, live);
            && (p in current <==> p in views && (p == self || p in live))
            && (p in current ==> current[p] == views[p].maxVersion)
            && (p in LiveViews(views, current, extra) <==> p in current && extra(views[p]))
            && (p in LiveViews(views, current, extra) ==> LiveViews(views, current, extra)[p] == views[p])
  {
  }

  /** The watchers hear exactly of nodes that come, go, or have a new version. */
  lemma WatchersHearOfChanges(self: ChitchatId, v0: Views, live0: set<ChitchatId>, v1: Views, live1: set<ChitchatId>)
    ensures LiveVersions(self, v0, live0) == LiveVersions(self, v1, live1)
            <==> forall p :: (p in v0 && (p == self || p in live0) <==> p in v1 && (p == self || p in live1))
                             && (p in v0 && p in v1 && (p == self || p in live0) ==> v0[p].maxVersion == v1[p].maxVersion)
  {
    var a, b := LiveVersions(self, v0, live0), LiveVersions(self, v1, live1);
    if a == b {
      forall p ensures (p in v0 && (p == self || p in live0) <==> p in v1 && (p == self || p in live1))
                       && (p in v0 && p in v1 && (p == self || p in live0) ==> v0[p].maxVersion == v1[p].maxVersion) {
        assert p in a <==> p in b;
        assert p in a ==> a[p] == b[p];
      }
    }
  }

  // ---------- the days of a process ----------

  /** What a process does: it takes a message, or looks at the liveness of the others. */
  datatype Act = Told(msg: Message, at: Instant) | Looked(at: Instant)

  /** What it went through: `views[i]` is what it knew before act i, `events[i]` what its detector observed then. */
  datatype Story = Story(acts: seq<Act>, views: seq<Views>, events: seq<seq<Sighting>>)

  function AllOf(events: seq<seq<Sighting>>, n: nat): seq<Sighting>
    requires n <= |events|
  {
    if n == 0 then [] else AllOf(events, n - 1) + events[n - 1]
  }

  function DetectorAt(c: Config, s: Story, i: nat): DetectorView<ChitchatId>
    requires i <= |s.events|
  {
    ObservedAll(c, EmptyDetector(), AllOf(s.events, i))
  }

  /** One act, as `ProcessMessage` and `UpdateNodesLiveness` have it. */
  ghost predicate Acts(self: ChitchatId, clusterId: Text, c: Config, v: DetectorView<ChitchatId>, views: Views, act: Act,
                       events: seq<Sighting>, after: Views)
  {
    match act
    case Told(msg, at) =>
      after == AfterMessage(self, clusterId, views, msg, at) && Reports(events, Heard(self, clusterId, views, msg), at)
    case Looked(at) =>
      && events != [] && events[|events| - 1] == Collection(at)
      && var checks := events[..|events| - 1];
         Checks(checks, views.Keys - {self}, at) && after == views - Collectible(c, ObservedAll(c, v, checks), at)
  }

  ghost predicate Lived(self: ChitchatId, clusterId: Text, c: Config, s: Story) {
    && |s.views| == |s.acts| + 1 && |s.events| == |s.acts|
    && (forall i, j | 0 <= i <= j < |s.acts| :: s.acts[i].at <= s.acts[j].at)
    && forall i | 0 <= i < |s.acts| ::
         Acts(self, clusterId, c, DetectorAt(c, s, i), s.views[i], s.acts[i], s.events[i], s.views[i + 1])
  }

  /** Act j brings a heartbeat of p that is news. */
  predicate BringsBeat(self: ChitchatId, clusterId: Text, before: Views, act: Act, p: ChitchatId) {
    && act.Told? && p != self
    && ((act.msg.Syn? && act.msg.clusterId == clusterId) || act.msg.SynAck?)
    && p in act.msg.digest && 0 < ViewIn(before, p).heartbeat < act.msg.digest[p].heartbeat
  }

  lemma {:induction false} AllGrows(events: seq<seq<Sighting>>, m: nat, n: nat)
    requires m <= n <= |events|
    ensures AllOf(events, m) <= AllOf(events, n)
  {
    if m < n {
      AllGrows(events, m, n - 1);
    }
  }

  /** Each event belongs to an act. */
  lemma {:induction false} Located(events: seq<seq<Sighting>>, m: nat, n: nat, k: nat) returns (i: nat)
    requires m <= n <= |events| && |AllOf(events, m)| <= k < |AllOf(events, n)|
    ensures m <= i < n && |AllOf(events, i)| <= k < |AllOf(events, i)| + |events[i]|
    ensures AllOf(events, n)[k] == events[i][k - |AllOf(events, i)|]
  {
    if k < |AllOf(events, n - 1)| && m < n {
      AllGrows(events, m, n);
      i := Located(events, m, n - 1, k);
    } else {
      i := n - 1;
    }
  }

  lemma ActTimes(self: ChitchatId, clusterId: Text, c: Config, v: DetectorView<ChitchatId>, views: Views, act: Act,
                 events: seq<Sighting>, after: Views, e: Sighting)
    requires Acts(self, clusterId, c, v, views, act, events, after) && e in events
    ensures e.at == act.at && (e.Liveness? ==> act.Looked?)
  {
    if act.Looked? && e != events[|events| - 1] {
      assert e in events[..|events| - 1];
    }
  }

  predicate InOrder(events: seq<Sighting>) {
    forall a, b | 0 <= a <= b < |events| :: events[a].at <= events[b].at
  }

  lemma InOrderIsHistory(c: Config, events: seq<Sighting>)
    requires InOrder(events)
    ensures History(c, StatesOf(c, events), events)
  {
    hide Observed, ObservedAll;
    EventsMakeAHistory(c, events);
  }

  lemma EventsInOrder(self: ChitchatId, clusterId: Text, c: Config, s: Story, n: nat)
    requires Lived(self, clusterId, c, s) && n <= |s.acts|
    ensures InOrder(AllOf(s.events, n))
  {
    assert AllOf(s.events, 0) == [];
    hide Acts, AllOf;
    var all := AllOf(s.events, n);
    forall a, b | 0 <= a <= b < |all| ensures all[a].at <= all[b].at {
      var i := Located(s.events, 0, n, a);
      var j := Located(s.events, 0, n, b);
      if j < i {
        AllOfNext(s.events, j);
        AllGrows(s.events, j + 1, i);
        assert false;
      }
      ActTimes(self, clusterId, c, DetectorAt(c, s, i), s.views[i], s.acts[i], s.events[i], s.views[i + 1], all[a]);
      ActTimes(self, clusterId, c, DetectorAt(c, s, j), s.views[j], s.acts[j], s.events[j], s.views[j + 1], all[b]);
    }
  }

  /** The states of the detector, event by event. */
  ghost function StatesOf(c: Config, events: seq<Sighting>): seq<DetectorView<ChitchatId>> {
    seq(|events| + 1, i requires 0 <= i <= |events| => ObservedAll(c, EmptyDetector(), events[..i]))
  }

  lemma BeatIsReported(self: ChitchatId, clusterId: Text, c: Config, v: DetectorView<ChitchatId>, views: Views, act: Act,
                       events: seq<Sighting>, after: Views, p: ChitchatId)
    requires Acts(self, clusterId, c, v, views, act, events, after) && BringsBeat(self, clusterId, views, act, p)
    ensures Heartbeat(p, act.at) in events
  {
  }

  /** Whenever the others are looked at from act m on, a heartbeat of p came no longer before than `bound`. */
  ghost predicate GossipsOften(self: ChitchatId, clusterId: Text, s: Story, m: nat, n: nat, p: ChitchatId, bound: real)
    requires m <= n <= |s.acts| < |s.views|
  {
    forall i | m <= i < n && s.acts[i].Looked? ::
      exists j | m <= j < i :: BringsBeat(self, clusterId, s.views[j], s.acts[j], p) && s.acts[i].at - s.acts[j].at <= bound
  }

  /** Where an event of act j stands among all events. */
  lemma Placed(events: seq<seq<Sighting>>, j: nat, i: nat, n: nat, x: nat)
    requires j < i <= n <= |events| && x < |events[j]|
    ensures |AllOf(events, j)| + x < |AllOf(events, i)| <= |AllOf(events, n)|
    ensures AllOf(events, n)[|AllOf(events, j)| + x] == events[j][x]
  {
    AllOfNext(events, j);
    hide AllOf;
    AllGrows(events, j + 1, i);
    AllGrows(events, i, n);
    AllGrows(events, j + 1, n);
    assert AllOf(events, j + 1)[|AllOf(events, j)| + x] == events[j][x];
  }

  lemma AllOfNext(events: seq<seq<Sighting>>, j: nat)
    requires j < |events|
    ensures AllOf(events, j + 1) == AllOf(events, j) + events[j]
  {
  }

  lemma OftenInEvents(self: ChitchatId, clusterId: Text, c: Config, s: Story, m: nat, n: nat, p: ChitchatId, bound: real)
    requires Lived(self, clusterId, c, s) && m <= n <= |s.acts| && GossipsOften(self, clusterId, s, m, n, p, bound)
    ensures |AllOf(s.events, m)| <= |AllOf(s.events, n)|
    ensures BeatsOftenEnough(StatesOf(c, AllOf(s.events, n)), AllOf(s.events, n), |AllOf(s.events, m)|, |AllOf(s.events, n)|, p, bound)
  {
    assert |s.events| == |s.acts|;
    hide Lived, GossipsOften, HeardWithin, StatesOf, AllOf;
    AllGrows(s.events, m, n);
    var all, start := AllOf(s.events, n), |AllOf(s.events, m)|;
    StatesCount(c, all);
    var states := StatesOf(c, all);
    forall k | start <= k < |all| && all[k].Liveness? && all[k].id == p ensures HeardWithin(states, all, start, k, p, bound) {
      CheckedAfterBeat(self, clusterId, c, s, m, n, p, bound, k, states);
    }
  }

  lemma StatesCount(c: Config, events: seq<Sighting>)
    ensures |StatesOf(c, events)| == |events| + 1
  {
  }

  lemma CheckedAfterBeat(self: ChitchatId, clusterId: Text, c: Config, s: Story, m: nat, n: nat, p: ChitchatId, bound: real,
                         k: nat, states: seq<DetectorView<ChitchatId>>)
    requires Lived(self, clusterId, c, s) && m <= n <= |s.acts| && GossipsOften(self, clusterId, s, m, n, p, bound)
    requires var all := AllOf(s.events, n);
             |AllOf(s.events, m)| <= k < |all| < |states| && all[k].Liveness? && all[k].id == p
    ensures HeardWithin(states, AllOf(s.events, n), |AllOf(s.events, m)|, k, p, bound)
  {
    hide Acts, BringsBeat, AllOf, SamplesOf, DetectorAt;
    var all := AllOf(s.events, n);
    var i := Located(s.events, m, n, k);
    ActTimes(self, clusterId, c, DetectorAt(c, s, i), s.views[i], s.acts[i], s.events[i], s.views[i + 1], all[k]);
    var j :| m <= j < i && BringsBeat(self, clusterId, s.views[j], s.acts[j], p) && s.acts[i].at - s.acts[j].at <= bound;
    BeatIsReported(self, clusterId, c, DetectorAt(c, s, j), s.views[j], s.acts[j], s.events[j], s.views[j + 1], p);
    var x :| 0 <= x < |s.events[j]| && s.events[j][x] == Heartbeat(p, s.acts[j].at);
    AllGrows(s.events, m, j);
    Placed(s.events, j, i, n, x);
    assert all[|AllOf(s.events, j)| + x] == Heartbeat(p, s.acts[j].at);
  }

  lemma StatesAreReached(c: Config, s: Story, m: nat, n: nat)
    requires m <= n <= |s.events|
    ensures |AllOf(s.events, m)| <= |AllOf(s.events, n)| < |StatesOf(c, AllOf(s.events, n))|
    ensures StatesOf(c, AllOf(s.events, n))[|AllOf(s.events, m)|] == DetectorAt(c, s, m)
  {
    hide ObservedAll;
    AllGrows(s.events, m, n);
    assert AllOf(s.events, n)[..|AllOf(s.events, m)|] == AllOf(s.events, m);
  }

  lemma StoryIsHistory(self: ChitchatId, clusterId: Text, c: Config, s: Story, n: nat)
    requires Lived(self, clusterId, c, s) && n <= |s.acts|
    ensures History(c, StatesOf(c, AllOf(s.events, n)), AllOf(s.events, n))
  {
    EventsInOrder(self, clusterId, c, s, n);
    InOrderIsHistory(c, AllOf(s.events, n));
  }

  predicate AliveFrom(states: seq<DetectorView<ChitchatId>>, k: nat, p: ChitchatId) {
    forall i | k <= i < |states| :: p in states[i].live
  }

  lemma AliveFromLater(states: seq<DetectorView<ChitchatId>>, k: nat, l: nat, p: ChitchatId)
    requires AliveFrom(states, k, p) && k <= l
    ensures AliveFrom(states, l, p)
  {
  }

  /** Alive at act m, p is alive in every state up to act n. */
  lemma AliveThroughout(self: ChitchatId, clusterId: Text, c: Config, s: Story, m: nat, n: nat, p: ChitchatId)
    requires Usable(c) && Lived(self, clusterId, c, s) && m <= n <= |s.acts|
    requires p in DetectorAt(c, s, m).live && GossipsOften(self, clusterId, s, m, n, p, SafeSilence(c))
    ensures AliveFrom(StatesOf(c, AllOf(s.events, n)), |AllOf(s.events, m)|, p)
  {
    assert |s.events| == |s.acts|;
    StoryIsHistory(self, clusterId, c, s, n);
    StatesAreReached(c, s, m, n);
    OftenInEvents(self, clusterId, c, s, m, n, p, SafeSilence(c));
    hide Lived, History, GossipsOften, BeatsOftenEnough, SafeSilence, StatesOf, AllOf, DetectorAt, Usable;
    StatesCount(c, AllOf(s.events, n));
    OftenHeardStaysAlive(c, StatesOf(c, AllOf(s.events, n)), AllOf(s.events, n), |AllOf(s.events, m)|, |AllOf(s.events, n)|, p);
  }

  lemma AliveAfter(self: ChitchatId, clusterId: Text, c: Config, s: Story, m: nat, n: nat, p: ChitchatId)
    requires Usable(c) && Lived(self, clusterId, c, s) && m <= n <= |s.acts| == |s.events|
    requires p in DetectorAt(c, s, m).live && GossipsOften(self, clusterId, s, m, n, p, SafeSilence(c))
    ensures p in DetectorAt(c, s, n).live && p !in DetectorAt(c, s, n).dead
  {
    hide Lived, History, StatesOf, AllOf, DetectorAt, Usable, SafeSilence, GossipsOften;
    var states, all := StatesOf(c, AllOf(s.events, n)), AllOf(s.events, n);
    AliveThroughout(self, clusterId, c, s, m, n, p);
    StoryIsHistory(self, clusterId, c, s, n);
    StatesAreReached(c, s, m, n);
    StatesAreReached(c, s, n, n);
    LiveIsSampled(c, states, all, |all|, p);
  }

  lemma KnownAfterOne(self: ChitchatId, clusterId: Text, c: Config, s: Story, m: nat, n: nat, p: ChitchatId)
    requires Usable(c) && Lived(self, clusterId, c, s) && m < n <= |s.acts| == |s.events| && |s.views| == |s.acts| + 1
    requires p in DetectorAt(c, s, m).live && GossipsOften(self, clusterId, s, m, n, p, SafeSilence(c))
    requires p in s.views[n - 1]
    ensures p in s.views[n]
  {
    hide Lived, History, StatesOf, AllOf, DetectorAt, Usable, SafeSilence, GossipsOften, AliveFrom;
    var states := StatesOf(c, AllOf(s.events, n));
    AliveThroughout(self, clusterId, c, s, m, n, p);
    StoryIsHistory(self, clusterId, c, s, n);
    AllGrows(s.events, m, n - 1);
    AllGrows(s.events, n - 1, n);
    AliveFromLater(states, |AllOf(s.events, m)|, |AllOf(s.events, n - 1)|, p);
    StaysKnown(self, clusterId, c, s, n, p, states);
  }

  /** Nodes that gossip often enough never die.  If p is alive at act m, and whenever the process looks at the others
      afterwards a digest had a higher heartbeat of p, not long before, then p stays alive and known. */
  lemma {:induction false} OftenGossipedNeverDie(self: ChitchatId, clusterId: Text, c: Config, s: Story, m: nat, n: nat, p: ChitchatId)
    requires Usable(c) && Lived(self, clusterId, c, s) && m <= n <= |s.acts|
    requires p in DetectorAt(c, s, m).live && GossipsOften(self, clusterId, s, m, n, p, SafeSilence(c))
    ensures p in DetectorAt(c, s, n).live && p !in DetectorAt(c, s, n).dead
    ensures p in s.views[m] ==> p in s.views[n]
    decreases n
  {
    assert |s.events| == |s.acts| && |s.views| == |s.acts| + 1;
    hide Lived, DetectorAt, Usable, SafeSilence, GossipsOften;
    AliveAfter(self, clusterId, c, s, m, n, p);
    if m < n {
      FewerActs(self, clusterId, s, m, n, p, SafeSilence(c));
      OftenGossipedNeverDie(self, clusterId, c, s, m, n - 1, p);
      if p in s.views[m] {
        KnownAfterOne(self, clusterId, c, s, m, n, p);
      }
    }
  }

  lemma FewerActs(self: ChitchatId, clusterId: Text, s: Story, m: nat, n: nat, p: ChitchatId, bound: real)
    requires m < n <= |s.acts| < |s.views| && GossipsOften(self, clusterId, s, m, n, p, bound)
    ensures GossipsOften(self, clusterId, s, m, n - 1, p, bound)
  {
  }

  lemma StaysKnown(self: ChitchatId, clusterId: Text, c: Config, s: Story, n: nat, p: ChitchatId,
                   states: seq<DetectorView<ChitchatId>>)
    requires Usable(c) && Lived(self, clusterId, c, s) && 0 < n <= |s.acts| && p in s.views[n - 1]
    requires states == StatesOf(c, AllOf(s.events, n)) && History(c, states, AllOf(s.events, n))
    requires AliveFrom(states, |AllOf(s.events, n - 1)|, p)
    ensures p in s.views[n]
  {
    hide Acts, History, ObservedAll, AfterMessage, AliveFrom, StatesOf, AllOf;
    var act, events := s.acts[n - 1], s.events[n - 1];
    assert Acts(self, clusterId, c, DetectorAt(c, s, n - 1), s.views[n - 1], act, events, s.views[n]);
    if act.Looked? && events != [] {
      AliveMidway(c, s.events, n, |events| - 1, p, states);
    }
    hide Lived;
    ActKeeps(self, clusterId, c, DetectorAt(c, s, n - 1), s.views[n - 1], act, events, s.views[n], p);
  }

  /** Before the collection that ends a look at the others, p is not dead. */
  lemma AliveMidway(c: Config, events: seq<seq<Sighting>>, n: nat, x: nat, p: ChitchatId, states: seq<DetectorView<ChitchatId>>)
    requires Usable(c) && 0 < n <= |events| && x <= |events[n - 1]|
    requires states == StatesOf(c, AllOf(events, n)) && History(c, states, AllOf(events, n))
    requires AliveFrom(states, |AllOf(events, n - 1)|, p)
    ensures p !in ObservedAll(c, ObservedAll(c, EmptyDetector(), AllOf(events, n - 1)), events[n - 1][..x]).dead
  {
    AllOfNext(events, n - 1);
    hide ObservedAll, AllOf, History;
    var before, last, all := AllOf(events, n - 1), events[n - 1], AllOf(events, n);
    var k := |before| + x;
    ObservedConcat(c, EmptyDetector(), before, last[..x]);
    assert all[..k] == before + last[..x];
    LiveIsSampled(c, states, all, k, p);
  }

  lemma ActKeeps(self: ChitchatId, clusterId: Text, c: Config, v: DetectorView<ChitchatId>, views: Views, act: Act,
                 events: seq<Sighting>, after: Views, p: ChitchatId)
    requires Acts(self, clusterId, c, v, views, act, events, after) && p in views
    requires act.Looked? && events != [] ==> p !in ObservedAll(c, v, events[..|events| - 1]).dead
    ensures p in after
  {
    hide ObservedAll, AfterMessage, Checks, Reports, Heard;
    match act
    case Told(msg, at) => MessagesForgetNobody(self, clusterId, views, msg, at, p);
    case Looked(at) => LiveIsNotCollectible(c, ObservedAll(c, v, events[..|events| - 1]), p, at);
  }

  lemma LiveIsNotCollectible(c: Config, v: DetectorView<ChitchatId>, p: ChitchatId, at: Instant)
    requires p !in v.dead
    ensures p !in Collectible(c, v, at)
  {
  }

  lemma MessagesForgetNobody(self: ChitchatId, clusterId: Text, views: Views, msg: Message, now: Instant, p: ChitchatId)
    requires p in views
    ensures p in AfterMessage(self, clusterId, views, msg, now)
  {
    hide ApplyNodeDeltas;
    var beaten := AfterSelfHeartbeat(self, views);
    match msg
    case SynAck(digest, delta) => DeltasAndHeartbeats(AfterDigest(self, beaten, digest), delta.nodeDeltas, now, p);
    case Ack(delta) => DeltasAndHeartbeats(beaten, delta.nodeDeltas, now, p);
    case _ =>
  }
}
