/** What a failure detector makes of the heartbeats it was told of: when a check finds a node alive or dead, by the gaps
    between its last heartbeats, and when a dead node is forgotten. */
module Suspicions {
  import opened Types
  import opened SamplingWindows
  import opened FailureDetectors

  // ---------- one check ----------

  lemma {:induction false} SumBetween(values: seq<real>, lo: real, hi: real)
    requires forall i | 0 <= i < |values| :: lo <= values[i] <= hi
    ensures |values| as real * lo <= Sum(values) <= |values| as real * hi
  {
    if values != [] {
      SumBetween(values[1..], lo, hi);
      var n := |values[1..]| as real;
      assert |values| as real == n + 1.0;
      assert (n + 1.0) * lo == n * lo + lo && (n + 1.0) * hi == n * hi + hi;
    }
  }

  /** How long a node may be silent that has n intervals with this sum. */
  function PatienceFor(c: Config, n: nat, sum: real): real {
    c.phiThreshold * ((sum + 5.0 * c.initialInterval) / (n as real + 5.0))
  }

  /** How long a node may be silent that has n intervals of this length. */
  function Patience(c: Config, n: nat, each: real): real {
    PatienceFor(c, n, n as real * each)
  }

  lemma QuotientGrows(a: real, b: real, q: real)
    requires q > 0.0 && a <= b
    ensures a / q <= b / q
  {
    QuotientAtMost(a, b / q, q);
    assert (b / q) * q == b;
  }

  lemma Scaled(a: real, b: real, factor: real)
    requires factor >= 0.0 && a <= b
    ensures factor * a <= factor * b
  {
    ProductLeq(a, b, factor);
    assert a * factor == factor * a && b * factor == factor * b;
  }

  lemma PatienceGrows(c: Config, n: nat, a: real, b: real)
    requires c.phiThreshold >= 0.0 && a <= b
    ensures PatienceFor(c, n, a) <= PatienceFor(c, n, b)
  {
    QuotientGrows(a + 5.0 * c.initialInterval, b + 5.0 * c.initialInterval, n as real + 5.0);
    Scaled((a + 5.0 * c.initialInterval) / (n as real + 5.0), (b + 5.0 * c.initialInterval) / (n as real + 5.0), c.phiThreshold);
  }

  /** The threshold times the mean lies between those for the extremes. */
  lemma MeanBetween(c: Config, intervals: seq<real>, lo: real, hi: real)
    requires c.phiThreshold >= 0.0 && forall i | 0 <= i < |intervals| :: lo <= intervals[i] <= hi
    ensures Patience(c, |intervals|, lo) <= c.phiThreshold * Mean(c, intervals) <= Patience(c, |intervals|, hi)
  {
    assert c.phiThreshold * Mean(c, intervals) == PatienceFor(c, |intervals|, Sum(intervals));
    hide Sum, Mean, PatienceFor;
    SumBetween(intervals, lo, hi);
    PatienceGrows(c, |intervals|, |intervals| as real * lo, Sum(intervals));
    PatienceGrows(c, |intervals|, Sum(intervals), |intervals| as real * hi);
  }

  lemma AliveByMean(c: Config, s: Samples, now: Instant)
    requires Usable(c) && WellSampled(c, s, now) && s.intervals != [] && s.lastHeartbeat.Some?
    ensures Alive(c, s, now) <==> now - s.lastHeartbeat.value <= c.phiThreshold * Mean(c, s.intervals)
  {
    MeanBounds(c, s, now);
    hide Mean;
    QuotientAtMost(now - s.lastHeartbeat.value, c.phiThreshold, Mean(c, s.intervals));
  }

  ghost predicate FoundAlive<Id>(v: DetectorView<Id>, id: Id) {
    id in v.live && id !in v.dead
  }

  ghost predicate FoundDead<Id>(v: DetectorView<Id>, id: Id) {
    id in v.dead && id !in v.live
  }

  /** If the n intervals lie between lo and hi, a check finds the node dead after a silence of more than the threshold
      times the mean for hi, and alive up to the threshold times the mean for lo. */
  lemma JudgedByIntervals<Id>(c: Config, v: DetectorView<Id>, id: Id, now: Instant, lo: real, hi: real)
    requires Usable(c) && Orderly(c, v, now)
    requires var s := SamplesOf(v, id);
             s.intervals != [] && s.lastHeartbeat.Some? && forall i | 0 <= i < |s.intervals| :: lo <= s.intervals[i] <= hi
    ensures var s, after := SamplesOf(v, id), Observed(c, v, Liveness(id, now));
            var silence := now - s.lastHeartbeat.value;
            && (silence > Patience(c, |s.intervals|, hi) ==> FoundDead(after, id))
            && (silence <= Patience(c, |s.intervals|, lo) ==> FoundAlive(after, id))
  {
    var s := SamplesOf(v, id);
    assert WellSampled(c, s, now);
    AliveByMean(c, s, now);
    MeanBetween(c, s.intervals, lo, hi);
    hide Mean, Patience, Alive, WellSampled;
  }

  /** Without an interval to judge by, a check finds the node dead. */
  lemma DeadWithoutIntervals<Id>(c: Config, v: DetectorView<Id>, id: Id, now: Instant)
    requires SamplesOf(v, id).intervals == [] || SamplesOf(v, id).lastHeartbeat.None?
    ensures FoundDead(Observed(c, v, Liveness(id, now)), id)
  {
  }

  /** A check that finds a node dead dates its death, unless it was dead before, and forgets the intervals, not the last
      heartbeat. */
  lemma DeadAreDatedAndForgotten<Id>(c: Config, v: DetectorView<Id>, id: Id, now: Instant)
    requires id in Observed(c, v, Liveness(id, now)).dead && Orderly(c, v, now)
    ensures var after := Observed(c, v, Liveness(id, now));
            && after.dead[id] == (if id in v.dead then v.dead[id] else now)
            && SamplesOf(after, id) == Samples([], SamplesOf(v, id).lastHeartbeat)
            && (forall other | other != id :: SamplesOf(after, other) == SamplesOf(v, other))
  {
  }

  /** A check that finds it alive leaves the intervals as they are. */
  lemma AliveAreRemembered<Id>(c: Config, v: DetectorView<Id>, id: Id, now: Instant)
    requires id in Observed(c, v, Liveness(id, now)).live
    ensures Observed(c, v, Liveness(id, now)).samples == v.samples
  {
  }

  /** A collection forgets a dead node exactly if it has been dead for the grace period or longer, and nobody else. */
  lemma CollectionForgetsExactly<Id>(c: Config, v: DetectorView<Id>, now: Instant, id: Id)
    ensures var after := Observed(c, v, Collection(now));
            if id in v.dead && v.dead[id] + c.deadNodeGracePeriod <= now
            then id !in after.dead && SamplesOf(after, id) == Samples([], None)
            else (id in after.dead <==> id in v.dead) && (id in v.dead ==> after.dead[id] == v.dead[id])
                 && SamplesOf(after, id) == SamplesOf(v, id)
  {
  }

  // ---------- histories ----------

  /** The times at which heartbeats of the node were reported. */
  ghost function Beats<Id>(events: seq<DetectorEvent<Id>>, id: Id): seq<Instant> {
    if events == [] then []
    else
      var last := events[|events| - 1];
      Beats(events[..|events| - 1], id) + if last.Heartbeat? && last.id == id then [last.at] else []
  }

  /** The gaps between successive times, but for those above `top`. */
  function Gaps(times: seq<Instant>, top: Instant): seq<real> {
    if |times| < 2 then []
    else
      var gap := times[|times| - 1] - times[|times| - 2];
      Gaps(times[..|times| - 1], top) + if gap <= top then [gap] else []
  }

  /** Between the states m and n no check found the node dead, and no collection forgot it. */
  ghost predicate Remembered<Id>(states: seq<DetectorView<Id>>, events: seq<DetectorEvent<Id>>, m: nat, n: nat, id: Id) {
    && m <= n <= |events| && |states| == |events| + 1
    && forall i | m <= i < n :: Remembers(states[i], events[i], states[i + 1], id)
  }

  ghost predicate Remembers<Id>(v: DetectorView<Id>, e: DetectorEvent<Id>, after: DetectorView<Id>, id: Id) {
    && (e.Liveness? && e.id == id ==> id in after.live)
    && (e.Collection? && id in v.dead ==> id in after.dead)
  }

  /** The heartbeats the detector goes by in state n, since it last forgot all intervals in state m. */
  ghost function TimesOf<Id>(states: seq<DetectorView<Id>>, events: seq<DetectorEvent<Id>>, m: nat, n: nat, id: Id): seq<Instant>
    requires m <= n <= |events| && m < |states|
  {
    (match SamplesOf(states[m], id).lastHeartbeat case None => [] case Some(t) => [t]) + Beats(events[m..n], id)
  }

  lemma OneBeatMore<Id>(states: seq<DetectorView<Id>>, events: seq<DetectorEvent<Id>>, m: nat, n: nat, id: Id)
    requires m <= n < |events| && m < |states|
    ensures TimesOf(states, events, m, n + 1, id)
            == TimesOf(states, events, m, n, id)
               + if events[n].Heartbeat? && events[n].id == id then [events[n].at] else []
  {
    assert events[m..n + 1][..n - m] == events[m..n];
  }

  lemma OneGapMore(times: seq<Instant>, t: Instant, top: Instant)
    ensures Gaps(times + [t], top)
            == Gaps(times, top)
               + if times != [] && t - times[|times| - 1] <= top then [t - times[|times| - 1]] else []
  {
    assert (times + [t])[..|times|] == times;
  }

  /** What one event does to the samples of a node. */
  lemma SampledStep<Id>(c: Config, v: DetectorView<Id>, e: DetectorEvent<Id>, id: Id)
    ensures var s, t := SamplesOf(v, id), SamplesOf(Observed(c, v, e), id);
            if e.Heartbeat? && e.id == id then
              && t.lastHeartbeat == Some(e.at)
              && t.intervals == if s.lastHeartbeat.Some? && e.at - s.lastHeartbeat.value <= c.maxInterval
                                then LastN(s.intervals + [e.at - s.lastHeartbeat.value], c.samplingWindowSize) else s.intervals
            else Remembers(v, e, Observed(c, v, e), id) ==> t == s
  {
    hide LastN, Alive;
  }

  /** The intervals are the gaps between the last heartbeats reported, as many as the window holds, but for those above
      the maximum. */
  lemma {:induction false} IntervalsAreGaps<Id>(c: Config, states: seq<DetectorView<Id>>, events: seq<DetectorEvent<Id>>,
                                                      m: nat, n: nat, id: Id)
    requires History(c, states, events) && Remembered(states, events, m, n, id) && SamplesOf(states[m], id).intervals == []
    ensures var s, times := SamplesOf(states[n], id), TimesOf(states, events, m, n, id);
            && s.intervals == LastN(Gaps(times, c.maxInterval), c.samplingWindowSize)
            && s.lastHeartbeat == if times == [] then None else Some(times[|times| - 1])
  {
    hide Observed, LastN, Gaps, Remembers;
    if n > m {
      IntervalsAreGaps(c, states, events, m, n - 1, id);
      SampledStep(c, states[n - 1], events[n - 1], id);
      OneBeatMore(states, events, m, n - 1, id);
      var times := TimesOf(states, events, m, n - 1, id);
      OneGapMore(times, events[n - 1].at, c.maxInterval);
      assert times + [] == times && Gaps(times, c.maxInterval) + [] == Gaps(times, c.maxInterval);
      if times != [] {
        LastNOfAppend(Gaps(times, c.maxInterval), events[n - 1].at - times[|times| - 1], c.samplingWindowSize);
      }
    } else {
      FirstTimes(states, events, m, id, c.maxInterval, c.samplingWindowSize);
    }
  }

  lemma FirstTimes<Id>(states: seq<DetectorView<Id>>, events: seq<DetectorEvent<Id>>, m: nat, id: Id, top: Instant, window: nat)
    requires m <= |events| && m < |states|
    ensures var times := TimesOf(states, events, m, m, id);
            && LastN(Gaps(times, top), window) == []
            && SamplesOf(states[m], id).lastHeartbeat == if times == [] then None else Some(times[|times| - 1])
  {
    assert events[m..m] == [];
  }

  /** Heartbeats with gaps between lo and hi. */
  predicate Regular(times: seq<Instant>, lo: real, hi: real) {
    forall i | 0 < i < |times| :: lo <= times[i] - times[i - 1] <= hi
  }

  lemma {:induction false} RegularGaps(times: seq<Instant>, lo: real, hi: real, top: Instant)
    requires Regular(times, lo, hi) && hi <= top
    ensures |Gaps(times, top)| == if times == [] then 0 else |times| - 1
    ensures forall i | 0 <= i < |Gaps(times, top)| :: lo <= Gaps(times, top)[i] <= hi
  {
    if |times| >= 2 {
      RegularGaps(times[..|times| - 1], lo, hi, top);
    }
  }

  /** In any history: after two or more heartbeats with gaps between lo and hi, since the detector last forgot the
      intervals, a check finds the node dead or alive by the length of the silence. */
  lemma HeartbeatsDecide<Id>(c: Config, states: seq<DetectorView<Id>>, events: seq<DetectorEvent<Id>>, m: nat, n: nat,
                                   id: Id, lo: real, hi: real)
    requires Usable(c) && History(c, states, events) && n < |events| && events[n].Liveness? && events[n].id == id
    requires Remembered(states, events, m, n, id) && SamplesOf(states[m], id).intervals == []
    requires var times := TimesOf(states, events, m, n, id); |times| >= 2 && Regular(times, lo, hi) && hi <= c.maxInterval
    ensures var times := TimesOf(states, events, m, n, id);
            var k := Min(|times| - 1, c.samplingWindowSize);
            var silence := events[n].at - times[|times| - 1];
            && (silence > Patience(c, k, hi) ==> FoundDead(states[n + 1], id))
            && (silence <= Patience(c, k, lo) ==> FoundAlive(states[n + 1], id))
  {
    hide Observed, Gaps, FoundDead, FoundAlive, Patience, Orderly;
    var times := TimesOf(states, events, m, n, id);
    IntervalsAreGaps(c, states, events, m, n, id);
    RegularGaps(times, lo, hi, c.maxInterval);
    DetectorsAreOrderly(c, states, events, n, events[n].at);
    JudgedByIntervals(c, states[n], id, events[n].at, lo, hi);
  }

  /** If all the gaps are equal, the length of the silence alone decides. */
  lemma SteadyHeartbeatsDecideExactly<Id>(c: Config, states: seq<DetectorView<Id>>, events: seq<DetectorEvent<Id>>,
                                                m: nat, n: nat, id: Id, gap: real)
    requires Usable(c) && History(c, states, events) && n < |events| && events[n].Liveness? && events[n].id == id
    requires Remembered(states, events, m, n, id) && SamplesOf(states[m], id).intervals == []
    requires var times := TimesOf(states, events, m, n, id); |times| >= 2 && Regular(times, gap, gap) && gap <= c.maxInterval
    ensures var times := TimesOf(states, events, m, n, id);
            var k := Min(|times| - 1, c.samplingWindowSize);
            id in states[n + 1].live
            <==> events[n].at - times[|times| - 1] <= Patience(c, k, gap)
  {
    hide Patience, Observed, Gaps, Remembered;
    HeartbeatsDecide(c, states, events, m, n, id, gap, gap);
  }

  // ---------- staying alive ----------

  /** Whenever the node is checked between the states m and n, its last heartbeat was no longer than `bound` before; for
      the first checks it may be one from before. */
  ghost predicate BeatsOftenEnough<Id>(states: seq<DetectorView<Id>>, events: seq<DetectorEvent<Id>>, m: nat, n: nat,
                                             id: Id, bound: real)
    requires m <= n <= |events| && m < |states|
  {
    forall i | m <= i < n && events[i].Liveness? && events[i].id == id :: HeardWithin(states, events, m, i, id, bound)
  }

  ghost predicate HeardWithin<Id>(states: seq<DetectorView<Id>>, events: seq<DetectorEvent<Id>>, m: nat, i: nat,
                                        id: Id, bound: real)
    requires m <= i < |events| && m < |states|
  {
    || (var last := SamplesOf(states[m], id).lastHeartbeat; last.Some? && events[i].at - last.value <= bound)
    || exists j | m <= j < i :: events[j].Heartbeat? && events[j].id == id && events[i].at - events[j].at <= bound
  }

  /** The bound within which a live node is never found dead. */
  function SafeSilence(c: Config): real
    requires Usable(c)
  {
    c.phiThreshold * (5.0 * c.initialInterval / (c.samplingWindowSize as real + 5.0))
  }

  /** While the node lives, the last heartbeat the detector knows of is no older than any reported since state m. */
  lemma {:induction false} LastHeartbeatIsLater<Id>(c: Config, states: seq<DetectorView<Id>>, events: seq<DetectorEvent<Id>>,
                                                          m: nat, n: nat, id: Id)
    requires Usable(c) && History(c, states, events) && m <= n < |states|
    requires forall i | m <= i <= n :: id in states[i].live
    ensures var last := SamplesOf(states[n], id).lastHeartbeat;
            && last.Some?
            && (var first := SamplesOf(states[m], id).lastHeartbeat; first.Some? && first.value <= last.value)
            && (forall j | m <= j < n && events[j].Heartbeat? && events[j].id == id :: events[j].at <= last.value)
  {
    hide Observed, WellSampled;
    if n == m {
      LiveIsSampled(c, states, events, n, id);
    } else {
      LastHeartbeatIsLater(c, states, events, m, n - 1, id);
      LiveIsSampled(c, states, events, n - 1, id);
      SampledStep(c, states[n - 1], events[n - 1], id);
      LastIsPast(c, states, events, n - 1, id);
    }
  }

  lemma LiveIsSampled<Id>(c: Config, states: seq<DetectorView<Id>>, events: seq<DetectorEvent<Id>>, n: nat, id: Id)
    requires Usable(c) && History(c, states, events) && n < |states| && id in states[n].live
    ensures SamplesOf(states[n], id).lastHeartbeat.Some? && id !in states[n].dead
  {
    hide Observed, WellSampled;
    DetectorsAreOrderly(c, states, events, n, if n > 0 then events[n - 1].at else 0.0);
  }

  lemma LastIsPast<Id>(c: Config, states: seq<DetectorView<Id>>, events: seq<DetectorEvent<Id>>, n: nat, id: Id)
    requires Usable(c) && History(c, states, events) && n < |events|
    ensures SamplesOf(states[n], id).lastHeartbeat.Some? ==> SamplesOf(states[n], id).lastHeartbeat.value <= events[n].at
  {
    hide Observed;
    DetectorsAreOrderly(c, states, events, n, events[n].at);
  }

  /** A live node of which a heartbeat is reported often enough never dies. */
  lemma {:induction false} OftenHeardStaysAlive<Id>(c: Config, states: seq<DetectorView<Id>>, events: seq<DetectorEvent<Id>>,
                                                          m: nat, n: nat, id: Id)
    requires Usable(c) && History(c, states, events) && m <= n <= |events| && id in states[m].live
    requires BeatsOftenEnough(states, events, m, n, id, SafeSilence(c))
    ensures forall i | m <= i <= n :: id in states[i].live
  {
    hide Observed, SafeSilence;
    if n > m {
      OftenHeardStaysAlive(c, states, events, m, n - 1, id);
      LastHeartbeatIsLater(c, states, events, m, n - 1, id);
      var e, last := events[n - 1], SamplesOf(states[n - 1], id).lastHeartbeat;
      if e.Liveness? && e.id == id {
        assert HeardWithin(states, events, m, n - 1, id, SafeSilence(c));
        assert e.at - last.value <= SafeSilence(c);
        StaysAliveThen(c, states, events, n - 1);
      } else {
        LiveIsSampled(c, states, events, n - 1, id);
        OthersLeaveItAlive(c, states[n - 1], e, id);
      }
    }
  }

  lemma StaysAliveThen<Id>(c: Config, states: seq<DetectorView<Id>>, events: seq<DetectorEvent<Id>>, n: nat)
    requires Usable(c) && History(c, states, events) && n < |events| && events[n].Liveness? && events[n].id in states[n].live
    requires var last := SamplesOf(states[n], events[n].id).lastHeartbeat; last.Some? && events[n].at - last.value <= SafeSilence(c)
    ensures events[n].id in states[n + 1].live
  {
    hide Observed;
    RecentNodesStayAlive(c, states, events, n);
  }

  lemma OthersLeaveItAlive<Id>(c: Config, v: DetectorView<Id>, e: DetectorEvent<Id>, id: Id)
    requires id in v.live && !(e.Liveness? && e.id == id)
    ensures id in Observed(c, v, e).live
  {
  }
}
