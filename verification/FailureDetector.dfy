/** The phi-accrual failure detector: which nodes are live, which are dead since when, and which are forgotten. */
module FailureDetectors {
  import opened Types
  import opened SamplingWindows

  datatype DetectorView<Id(==)> = DetectorView(samples: map<Id, Samples>, live: set<Id>, dead: map<Id, Instant>)

  function EmptyDetector<Id>(): DetectorView<Id> {
    DetectorView(map[], {}, map[])
  }

  function SamplesOf<Id>(v: DetectorView<Id>, id: Id): Samples {
    if id in v.samples then v.samples[id] else NO_SAMPLES
  }

  function AfterReport<Id>(c: Config, v: DetectorView<Id>, id: Id, now: Instant): DetectorView<Id> {
    v.(samples := v.samples[id := AfterHeartbeat(c, SamplesOf(v, id), now)])
  }

  function AfterLiveness<Id>(c: Config, v: DetectorView<Id>, id: Id, now: Instant): DetectorView<Id> {
    if Alive(c, SamplesOf(v, id), now) then v.(live := v.live + {id}, dead := v.dead - {id})
    else
      DetectorView(
        if id in v.samples then v.samples[id := AfterReset(v.samples[id])] else v.samples,
        v.live - {id},
        if id in v.dead then v.dead else v.dead[id := now])
  }

  /** The dead nodes whose grace period is over. */
  function Collectible<Id>(c: Config, v: DetectorView<Id>, now: Instant): set<Id> {
    set id | id in v.dead && now >= v.dead[id] + c.deadNodeGracePeriod
  }

  function AfterCollection<Id>(c: Config, v: DetectorView<Id>, now: Instant): DetectorView<Id> {
    var gone := Collectible(c, v, now);
    v.(samples := v.samples - gone, dead := v.dead - gone)
  }

  /** The dead nodes that are no longer gossiped: more than half of their grace period is over. */
  function Scheduled<Id>(c: Config, v: DetectorView<Id>, now: Instant): set<Id> {
    set id | id in v.dead && v.dead[id] + c.deadNodeGracePeriod / 2.0 < now
  }

  class FailureDetector<Id(==, !new)> {
    const config: Config
    var nodeSamples: map<Id, SamplingWindow>
    var liveNodes: set<Id>
    var deadNodes: map<Id, Instant>

    /** Every object the windows consist of, and the samples they hold. */
    ghost var repr: set<object>
    ghost var samples: map<Id, Samples>

    static ghost predicate OwnedIn(w: SamplingWindow, objects: set<object>) {
      w in objects && w.intervals in objects && w.intervals.values in objects
    }

    static ghost predicate Holds(c: Config, w: SamplingWindow, s: Samples)
      reads w, w.intervals, w.intervals.values
    {
      w.Valid() && w.config == c && w.View() == s
    }

    static ghost predicate Apart(v: SamplingWindow, w: SamplingWindow) {
      v != w && v.intervals != w.intervals && v.intervals.values != w.intervals.values
    }

    ghost predicate Valid()
      reads this, repr
    {
      && Usable(config)
      && this !in repr
      && samples.Keys == nodeSamples.Keys
      && (forall id | id in nodeSamples ::
            OwnedIn(nodeSamples[id], repr) && Holds(config, nodeSamples[id], samples[id]))
      && (forall i, j | i in nodeSamples && j in nodeSamples && i != j :: Apart(nodeSamples[i], nodeSamples[j]))
    }

    ghost function View(): DetectorView<Id>
      reads this
    {
      DetectorView(samples, liveNodes, deadNodes)
    }

    constructor (config: Config)
      ensures Usable(config) ==> Valid()
      ensures repr == {} && this.config == config && View() == EmptyDetector()
    {
      this.config := config;
      nodeSamples, liveNodes, deadNodes, repr, samples := map[], {}, map[], {}, map[];
    }

    method GetOrCreateSamplingWindow(id: Id) returns (w: SamplingWindow)
      requires Valid()
      modifies this`nodeSamples, this`repr, this`samples
      ensures Valid() && fresh(repr - old(repr))
      ensures id in nodeSamples && nodeSamples[id] == w
      ensures View() == old(View()).(samples := old(View()).samples[id := SamplesOf(old(View()), id)])
    {
      hide SamplingWindow.Valid, SamplingWindow.View, AfterHeartbeat, AfterReset, Usable, LastN;
      if id in nodeSamples {
        return nodeSamples[id];
      }
      w := new SamplingWindow(config);
      hide FailureDetector.Valid;
      nodeSamples, samples := nodeSamples[id := w], samples[id := NO_SAMPLES];
      repr := repr + {w, w.intervals, w.intervals.values};
      WindowAdded(id, w);
    }

    /** A new window keeps the detector valid. */
    twostate lemma WindowAdded(id: Id, new w: SamplingWindow)
      requires old(Valid()) && id !in old(nodeSamples)
      requires forall o | o in old(repr) :: unchanged(o)
      requires w !in old(repr) && w.intervals !in old(repr) && w.intervals.values !in old(repr)
      requires Holds(config, w, NO_SAMPLES)
      requires nodeSamples == old(nodeSamples)[id := w] && samples == old(samples)[id := NO_SAMPLES]
      requires repr == old(repr) + {w, w.intervals, w.intervals.values}
      ensures Valid()
    {
      hide SamplingWindow.Valid, SamplingWindow.View, Usable, LastN, Holds;
    }

    method ReportHeartbeat(id: Id, now: Instant)
      requires Valid()
      modifies this`nodeSamples, this`repr, this`samples, repr
      ensures Valid() && fresh(repr - old(repr))
      ensures View() == AfterReport(config, old(View()), id, now)
    {
      hide SamplingWindow.Valid, SamplingWindow.View, AfterHeartbeat, AfterReset, Usable, LastN, Holds;
      var w := GetOrCreateSamplingWindow(id);
      ReportTo(id, now);
    }

    method ReportTo(id: Id, now: Instant)
      requires Valid() && id in nodeSamples
      modifies this`samples, repr
      ensures Valid()
      ensures samples == old(samples)[id := AfterHeartbeat(config, old(samples)[id], now)]
    {
      hide SamplingWindow.Valid, SamplingWindow.View, AfterHeartbeat, AfterReset, Usable, LastN;
      var w := nodeSamples[id];
      w.ReportHeartbeat(now);
      samples := samples[id := AfterHeartbeat(config, samples[id], now)];
      assert Holds(config, w, samples[id]);
      hide Holds;
      assert forall i | i in nodeSamples && i != id :: Apart(nodeSamples[i], w);
    }

    method ForgetSamples(id: Id)
      requires Valid() && id in nodeSamples
      modifies this`samples, repr
      ensures Valid()
      ensures samples == old(samples)[id := AfterReset(old(samples)[id])]
    {
      hide SamplingWindow.Valid, SamplingWindow.View, AfterHeartbeat, AfterReset, Usable, LastN;
      var w := nodeSamples[id];
      w.Reset();
      samples := samples[id := AfterReset(samples[id])];
      assert Holds(config, w, samples[id]);
      hide Holds;
      assert forall i | i in nodeSamples && i != id :: Apart(nodeSamples[i], w);
    }

    method IsAlive(id: Id, now: Instant) returns (isAlive: bool)
      requires Valid() && WellSampled(config, SamplesOf(View(), id), now)
      ensures isAlive == Alive(config, SamplesOf(View(), id), now)
    {
      hide SamplingWindow.Valid, SamplingWindow.View, Usable, LastN, Mean, WellSampled;
      isAlive := false;
      if id in nodeSamples {
        var phi := nodeSamples[id].PhiAt(now);
        isAlive := phi.Some? && phi.value <= config.phiThreshold;
      }
    }

    /** Marks the node as dead or alive, and forgets the samples of a dead one. */
    method UpdateNodeLiveness(id: Id, now: Instant)
      requires Valid() && WellSampled(config, SamplesOf(View(), id), now)
      modifies this`liveNodes, this`deadNodes, this`samples, repr
      ensures Valid() && repr == old(repr)
      ensures View() == AfterLiveness(config, old(View()), id, now)
    {
      hide SamplingWindow.Valid, SamplingWindow.View, AfterReset, Usable, LastN, Mean, WellSampled, Alive;
      var isAlive := IsAlive(id, now);
      if isAlive {
        liveNodes := liveNodes + {id};
        deadNodes := deadNodes - {id};
      } else {
        liveNodes := liveNodes - {id};
        if id !in deadNodes {
          deadNodes := deadNodes[id := now];
        }
        if id in nodeSamples {
          ForgetSamples(id);
        }
      }
    }

    /** Removes the dead nodes whose grace period is over, and returns them, each once. */
    method GarbageCollect(now: Instant) returns (removed: seq<Id>)
      requires Valid()
      modifies this`deadNodes, this`nodeSamples, this`samples
      ensures Valid() && repr == old(repr)
      ensures View() == AfterCollection(config, old(View()), now)
      ensures forall id :: id in removed <==> id in Collectible(config, old(View()), now)
      ensures forall i, j | 0 <= i < j < |removed| :: removed[i] != removed[j]
    {
      hide FailureDetector.Valid;
      removed := [];
      ghost var gone := Collectible(config, View(), now);
      var todo := deadNodes.Keys;
      while todo != {}
        invariant todo <= deadNodes.Keys
        invariant forall id :: id in removed <==> id in gone && id !in todo
        invariant forall i, j | 0 <= i < j < |removed| :: removed[i] != removed[j]
        decreases todo
      {
        var id :| id in todo;
        todo := todo - {id};
        if now >= deadNodes[id] + config.deadNodeGracePeriod {
          removed := removed + [id];
        }
      }
      Remove(removed, gone);
    }

    method Remove(removed: seq<Id>, ghost gone: set<Id>)
      requires Valid() && forall id :: id in removed <==> id in gone
      modifies this`deadNodes, this`nodeSamples, this`samples
      ensures Valid()
      ensures deadNodes == old(deadNodes) - gone && samples == old(samples) - gone
    {
      hide FailureDetector.Valid;
      ghost var done: set<Id> := {};
      for n := 0 to |removed|
        invariant forall id :: id in done <==> id in removed[..n]
        invariant deadNodes == old(deadNodes) - done
        invariant nodeSamples == old(nodeSamples) - done && samples == old(samples) - done
      {
        done := done + {removed[n]};
        deadNodes := deadNodes - {removed[n]};
        nodeSamples, samples := nodeSamples - {removed[n]}, samples - {removed[n]};
      }
      assert done == gone;
      KeepsValid(gone);
    }

    /** Forgetting nodes keeps the detector valid. */
    twostate lemma KeepsValid(gone: set<Id>)
      requires old(Valid()) && repr == old(repr)
      requires forall o | o in repr && o != this :: unchanged(o)
      requires nodeSamples == old(nodeSamples) - gone && samples == old(samples) - gone
      ensures Valid()
    {
      hide SamplingWindow.Valid, SamplingWindow.View, Usable, LastN, Holds;
    }

    function ScheduledForDeletionNodes(now: Instant): set<Id>
      reads this
    {
      var half := config.deadNodeGracePeriod / 2.0;
      set id | id in deadNodes && deadNodes[id] + half < now
    }
  }

  // ---------- runs ----------

  datatype DetectorEvent<Id> = Heartbeat(id: Id, at: Instant) | Liveness(id: Id, at: Instant) | Collection(at: Instant)

  function Observed<Id>(c: Config, v: DetectorView<Id>, e: DetectorEvent<Id>): DetectorView<Id> {
    match e
    case Heartbeat(id, at) => AfterReport(c, v, id, at)
    case Liveness(id, at) => AfterLiveness(c, v, id, at)
    case Collection(at) => AfterCollection(c, v, at)
  }

  function ObservedAll<Id>(c: Config, v: DetectorView<Id>, events: seq<DetectorEvent<Id>>): DetectorView<Id> {
    if events == [] then v
    else Observed(c, ObservedAll(c, v, events[..|events| - 1]), events[|events| - 1])
  }

  lemma {:induction false} ObservedConcat<Id>(c: Config, v: DetectorView<Id>, events: seq<DetectorEvent<Id>>, more: seq<DetectorEvent<Id>>)
    ensures ObservedAll(c, v, events + more) == ObservedAll(c, ObservedAll(c, v, events), more)
    decreases |more|
  {
    hide Observed;
    if more == [] {
      assert events + more == events;
    } else {
      var rest := more[..|more| - 1];
      ObservedConcat(c, v, events, rest);
      assert (events + more)[..|events + more| - 1] == events + rest;
    }
  }

  /** `states[i + 1]` is what event i makes of `states[i]`; time never goes back. */
  predicate History<Id>(c: Config, states: seq<DetectorView<Id>>, events: seq<DetectorEvent<Id>>) {
    && |states| == |events| + 1
    && states[0] == EmptyDetector()
    && (forall i | 0 <= i < |events| :: states[i + 1] == Observed(c, states[i], events[i]))
    && (forall i, j | 0 <= i <= j < |events| :: events[i].at <= events[j].at)
  }

  /** A detector that starts empty and observes events in order of time goes through such a history. */
  lemma EventsMakeAHistory<Id>(c: Config, events: seq<DetectorEvent<Id>>)
    requires forall i, j | 0 <= i <= j < |events| :: events[i].at <= events[j].at
    ensures History(c, seq(|events| + 1, i requires 0 <= i <= |events| => ObservedAll(c, EmptyDetector(), events[..i])), events)
  {
    hide Observed;
    forall i | 0 <= i < |events|
      ensures ObservedAll(c, EmptyDetector(), events[..i + 1]) == Observed(c, ObservedAll(c, EmptyDetector(), events[..i]), events[i])
    {
      assert events[..i + 1][..i] == events[..i];
    }
  }

  /** What holds of every reachable detector: no node is both live and dead, a live node has an interval to be
      judged by, no window overflows, and nothing has happened in the future. */
  predicate Orderly<Id>(c: Config, v: DetectorView<Id>, now: Instant) {
    && v.live !! v.dead.Keys
    && (forall id | id in v.live :: id in v.samples && v.samples[id].intervals != [] && v.samples[id].lastHeartbeat.Some?)
    && (forall id | id in v.samples :: WellSampled(c, v.samples[id], now))
    && (forall id | id in v.dead :: v.dead[id] <= now)
  }

  lemma HeartbeatKeepsWellSampled(c: Config, s: Samples, now: Instant)
    requires Usable(c) && WellSampled(c, s, now)
    ensures WellSampled(c, AfterHeartbeat(c, s, now), now)
    ensures s.intervals != [] ==> AfterHeartbeat(c, s, now).intervals != []
  {
  }

  lemma EventKeepsOrderly<Id>(c: Config, v: DetectorView<Id>, e: DetectorEvent<Id>)
    requires Usable(c) && Orderly(c, v, e.at)
    ensures Orderly(c, Observed(c, v, e), e.at)
  {
    hide AfterHeartbeat, Mean;
    if e.Heartbeat? {
      HeartbeatKeepsWellSampled(c, SamplesOf(v, e.id), e.at);
      assert e.id in v.live ==> AfterHeartbeat(c, SamplesOf(v, e.id), e.at).lastHeartbeat.Some? by {
        HeartbeatIsRecorded(c, SamplesOf(v, e.id), e.at);
      }
    }
  }

  lemma HeartbeatIsRecorded(c: Config, s: Samples, now: Instant)
    ensures AfterHeartbeat(c, s, now).lastHeartbeat == Some(now)
  {
  }

  /** Every detector that any events lead to is orderly; in particular the bounds on detection apply to it. */
  lemma {:induction false} DetectorsAreOrderly<Id>(c: Config, states: seq<DetectorView<Id>>, events: seq<DetectorEvent<Id>>, n: nat, now: Instant)
    requires Usable(c) && History(c, states, events) && n < |states|
    requires forall i | 0 <= i < n :: events[i].at <= now
    ensures Orderly(c, states[n], now)
  {
    if n > 0 {
      DetectorsAreOrderly(c, states, events, n - 1, events[n - 1].at);
      EventKeepsOrderly(c, states[n - 1], events[n - 1]);
    }
  }

  /** A dead node keeps its time of death: it can only come back to life, or be forgotten. */
  lemma TimeOfDeathIsFixed<Id>(c: Config, v: DetectorView<Id>, e: DetectorEvent<Id>, id: Id)
    requires id in v.dead
    ensures var v' := Observed(c, v, e);
            if id in v'.dead then v'.dead[id] == v.dead[id]
            else (e.Liveness? && e.id == id && Alive(c, SamplesOf(v, id), e.at)) || (e.Collection? && id in Collectible(c, v, e.at))
  {
  }

  /** In any history, a liveness check of a node that has been silent for longer than the bound finds it dead. */
  lemma SilentNodesDie<Id>(c: Config, states: seq<DetectorView<Id>>, events: seq<DetectorEvent<Id>>, n: nat)
    requires Usable(c) && History(c, states, events) && n < |events| && events[n].Liveness?
    requires var s := SamplesOf(states[n], events[n].id);
             s.lastHeartbeat.Some? ==>
               events[n].at - s.lastHeartbeat.value > c.phiThreshold * MaxReal(c.maxInterval, c.initialInterval)
    ensures events[n].id in states[n + 1].dead && events[n].id !in states[n + 1].live
  {
    hide Mean;
    var s := SamplesOf(states[n], events[n].id);
    DetectorsAreOrderly(c, states, events, n, events[n].at);
    if s.lastHeartbeat.Some? {
      SilenceIsDetected(c, s, events[n].at);
    }
  }

  /** In any history, a liveness check soon enough after the last heartbeat keeps a live node alive. */
  lemma RecentNodesStayAlive<Id>(c: Config, states: seq<DetectorView<Id>>, events: seq<DetectorEvent<Id>>, n: nat)
    requires Usable(c) && History(c, states, events) && n < |events| && events[n].Liveness?
    requires events[n].id in states[n].live
    requires var last := SamplesOf(states[n], events[n].id).lastHeartbeat;
             last.Some? ==>
               events[n].at - last.value
               <= c.phiThreshold * (PRIOR_WEIGHT * c.initialInterval / (c.samplingWindowSize as real + PRIOR_WEIGHT))
    ensures events[n].id in states[n + 1].live && events[n].id !in states[n + 1].dead
  {
    hide Mean;
    DetectorsAreOrderly(c, states, events, n, events[n].at);
    RecentHeartbeatIsAlive(c, SamplesOf(states[n], events[n].id), events[n].at);
  }

  /** Times of death reach back: a node dead since td when event n happens was dead since td in every state that
      was current at some time after td. */
  lemma {:induction false} DeadSince<Id>(c: Config, states: seq<DetectorView<Id>>, events: seq<DetectorEvent<Id>>, n: nat, id: Id, j: nat)
    requires History(c, states, events) && j <= n < |events|
    requires id in states[n].dead && states[n].dead[id] < events[j].at
    ensures id in states[j].dead && states[j].dead[id] == states[n].dead[id]
    decreases n - j
  {
    if j < n {
      DeadSince(c, states, events, n, id, j + 1);
      assert states[j + 1] == Observed(c, states[j], events[j]);
      assert events[j].at <= events[j + 1].at;
    }
  }

  /** Quarantine.  A node removed by a collection was scheduled for deletion, so kept out of digests and deltas,
      at every moment `q` in the second half of its grace period: whatever state was current at `q` says so. */
  lemma RemovedNodesWereQuarantined<Id>(c: Config, states: seq<DetectorView<Id>>, events: seq<DetectorEvent<Id>>, n: nat, id: Id,
                                    j: nat, q: Instant)
    requires Usable(c) && History(c, states, events) && j <= n < |events|
    requires events[n].Collection? && id in Collectible(c, states[n], events[n].at)
    requires (j > 0 ==> events[j - 1].at <= q) && q <= events[j].at
    requires states[n].dead[id] + c.deadNodeGracePeriod / 2.0 < q
    ensures id in Scheduled(c, states[j], q)
    ensures events[n].at - (states[n].dead[id] + c.deadNodeGracePeriod / 2.0) >= c.deadNodeGracePeriod / 2.0 > 0.0
  {
    DeadSince(c, states, events, n, id, j);
  }
}
