/** The heartbeat samples of one node: the ring of recent intervals and the suspicion level phi drawn from it.
    Durations are exact reals, in seconds. */
module SamplingWindows {
  import opened Types

  // ---------- sliding windows ----------

  function LastN(values: seq<real>, n: nat): seq<real> {
    if |values| <= n then values else values[|values| - n..]
  }

  function Sum(values: seq<real>): real {
    if values == [] then 0.0 else values[0] + Sum(values[1..])
  }

  lemma {:induction false} SumOfAppend(values: seq<real>, x: real)
    ensures Sum(values + [x]) == Sum(values) + x
  {
    if values == [] {
      assert values + [x] == [x];
    } else {
      assert (values + [x])[1..] == values[1..] + [x];
      SumOfAppend(values[1..], x);
    }
  }

  /** The last n of values + [x] are those of (the last n of values) + [x]. */
  lemma LastNOfAppend(values: seq<real>, x: real, n: nat)
    ensures LastN(values + [x], n) == LastN(LastN(values, n) + [x], n)
    ensures n > 0 ==>
              LastN(values + [x], n)
              == (if |LastN(values, n)| == n then LastN(values, n)[1..] else LastN(values, n)) + [x]
  {
  }

  /** The values a ring retains, oldest first. */
  function RingContents(cells: seq<real>, index: nat, isFilled: bool): seq<real>
    requires index <= |cells|
  {
    if isFilled then cells[index..] + cells[..index] else cells[..index]
  }

  /** Writing a value at the index of a ring drops the oldest one if the ring is full. */
  lemma RingStep(cells: seq<real>, index: nat, isFilled: bool, x: real)
    requires index < |cells|
    ensures var before := RingContents(cells, index, isFilled);
            var cells' := cells[index := x];
            && |before| <= |cells| && (isFilled <==> |before| == |cells|)
            && (isFilled ==> before[0] == cells[index])
            && RingContents(cells', if index == |cells| - 1 then 0 else index + 1, isFilled || index == |cells| - 1)
               == (if isFilled then before[1..] else before) + [x]
  {
  }

  lemma SumOfTail(values: seq<real>)
    requires values != []
    ensures Sum(values[1..]) == Sum(values) - values[0]
  {
  }

  /** An array that retains the most recent values and their sum. */
  class BoundedArrayStats {
    const values: array<real>
    var isFilled: bool
    var index: nat
    var sum: real
    /** Everything appended since the last clear. */
    ghost var history: seq<real>

    /** The ring holds the last `values.Length` values since the last clear, and their exact sum. */
    ghost predicate Valid()
      reads this, values
    {
      && index <= values.Length
      && (values.Length > 0 ==> index < values.Length)
      && RingContents(values[..], index, isFilled) == LastN(history, values.Length)
      && sum == Sum(LastN(history, values.Length))
    }

    constructor WithCapacity(capacity: nat)
      ensures Valid() && fresh(values) && values.Length == capacity && history == []
    {
      values := new real[capacity](_ => 0.0);
      isFilled, index, sum, history := false, 0, 0.0, [];
    }

    /** The source panics on a capacity of 0. */
    method Append(interval: real)
      requires Valid() && values.Length > 0
      modifies this, values
      ensures Valid() && history == old(history) + [interval]
    {
      hide Sum;
      ghost var cells, before := values[..], LastN(history, values.Length);
      RingStep(cells, index, isFilled, interval);
      LastNOfAppend(history, interval, values.Length);
      if isFilled {
        SumOfTail(before);
        sum := sum - values[index];
      }
      SumOfAppend(if isFilled then before[1..] else before, interval);
      values[index] := interval;
      assert values[..] == cells[index := interval];
      sum := sum + interval;
      if index == values.Length - 1 {
        isFilled := true;
        index := 0;
      } else {
        index := index + 1;
      }
      history := history + [interval];
    }

    method Clear()
      requires Valid()
      modifies this
      ensures Valid() && history == []
    {
      index, isFilled, sum := 0, false, 0.0;
      history := [];
    }

    method Len() returns (len: nat)
      requires Valid()
      ensures len == |LastN(history, values.Length)|
    {
      if isFilled {
        return values.Length;
      }
      return index;
    }

    method SumOfValues() returns (s: real)
      requires Valid()
      ensures s == Sum(LastN(history, values.Length))
    {
      return sum;
    }
  }

  // ---------- one node's samples ----------

  datatype Config = Config(
    phiThreshold: real,
    samplingWindowSize: nat,
    maxInterval: Instant,
    initialInterval: Instant,
    deadNodeGracePeriod: Instant)

  /** What the detector is used with: a window to write to, and a positive initial interval. */
  predicate Usable(c: Config) {
    c.samplingWindowSize > 0 && c.initialInterval > 0.0 && c.maxInterval >= 0.0 && c.phiThreshold >= 0.0
    && c.deadNodeGracePeriod > 0.0
  }

  const PRIOR_WEIGHT := 5.0

  datatype Samples = Samples(intervals: seq<real>, lastHeartbeat: Option<Instant>)

  const NO_SAMPLES := Samples([], None)

  function AfterHeartbeat(c: Config, s: Samples, now: Instant): Samples {
    var intervals :=
      if s.lastHeartbeat.Some? && now - s.lastHeartbeat.value <= c.maxInterval
      then LastN(s.intervals + [now - s.lastHeartbeat.value], c.samplingWindowSize)
      else s.intervals;
    Samples(intervals, Some(now))
  }

  function AfterReset(s: Samples): Samples {
    s.(intervals := [])
  }

  /** The mean interval, smoothed towards the initial one. */
  function Mean(c: Config, intervals: seq<real>): real {
    (Sum(intervals) + PRIOR_WEIGHT * c.initialInterval) / (|intervals| as real + PRIOR_WEIGHT)
  }

  /** A mean of 0 has no quotient; no usable configuration has one (lemma `MeanBounds`). */
  function Phi(c: Config, s: Samples, now: Instant): Option<real> {
    if s.intervals == [] || s.lastHeartbeat.None? || Mean(c, s.intervals) == 0.0 then None
    else Some((now - s.lastHeartbeat.value) / Mean(c, s.intervals))
  }

  predicate Alive(c: Config, s: Samples, now: Instant) {
    Phi(c, s, now).Some? && Phi(c, s, now).value <= c.phiThreshold
  }

  /** What holds of samples collected up to `now`. */
  predicate WellSampled(c: Config, s: Samples, now: Instant) {
    && |s.intervals| <= c.samplingWindowSize
    && (forall i | 0 <= i < |s.intervals| :: 0.0 <= s.intervals[i] <= c.maxInterval)
    && (s.lastHeartbeat.Some? ==> s.lastHeartbeat.value <= now)
  }

  class SamplingWindow {
    const config: Config
    const intervals: BoundedArrayStats
    var lastHeartbeat: Option<Instant>

    ghost predicate Valid()
      reads this, intervals, intervals.values
    {
      intervals.Valid() && Usable(config) && intervals.values.Length == config.samplingWindowSize
    }

    ghost function View(): Samples
      reads this, intervals
    {
      Samples(LastN(intervals.history, config.samplingWindowSize), lastHeartbeat)
    }

    constructor (config: Config)
      ensures Usable(config) ==> Valid()
      ensures fresh(intervals) && fresh(intervals.values) && this.config == config && View() == NO_SAMPLES
    {
      this.config := config;
      intervals := new BoundedArrayStats.WithCapacity(config.samplingWindowSize);
      lastHeartbeat := None;
    }

    method ReportHeartbeat(now: Instant)
      requires Valid()
      modifies this, intervals, intervals.values
      ensures Valid() && View() == AfterHeartbeat(config, old(View()), now)
    {
      if lastHeartbeat.Some? {
        var interval := now - lastHeartbeat.value;
        if interval <= config.maxInterval {
          LastNOfAppend(intervals.history, interval, config.samplingWindowSize);
          intervals.Append(interval);
        }
      }
      lastHeartbeat := Some(now);
    }

    method Reset()
      requires Valid()
      modifies intervals
      ensures Valid() && View() == AfterReset(old(View()))
    {
      intervals.Clear();
    }

    method PhiAt(now: Instant) returns (phi: Option<real>)
      requires Valid() && WellSampled(config, View(), now)
      ensures phi == Phi(config, View(), now)
    {
      MeanBounds(config, View(), now);
      var len := intervals.Len();
      if len == 0 {
        return None;
      }
      var sum := intervals.SumOfValues();
      if lastHeartbeat.None? {
        return None;
      }
      var mean := (sum + PRIOR_WEIGHT * config.initialInterval) / (len as real + PRIOR_WEIGHT);
      return Some((now - lastHeartbeat.value) / mean);
    }
  }

  lemma {:induction false} SumBounds(values: seq<real>, top: real)
    requires forall i | 0 <= i < |values| :: 0.0 <= values[i] <= top
    ensures 0.0 <= Sum(values) <= |values| as real * top
  {
    if values != [] {
      SumBounds(values[1..], top);
      var n := |values[1..]| as real;
      assert |values| as real == n + 1.0;
      assert (n + 1.0) * top == n * top + top;
    }
  }

  function MaxReal(a: real, b: real): real {
    if a < b then b else a
  }

  /** For positive q, a / q is at most b exactly when a is at most b * q. */
  lemma QuotientAtMost(a: real, b: real, q: real)
    requires q > 0.0
    ensures a / q <= b <==> a <= b * q
  {
    assert (a / q) * q == a;
    ScaledAtMost(a / q, b, q, a);
  }

  lemma ScaledAtMost(r: real, b: real, q: real, a: real)
    requires q > 0.0 && r * q == a
    ensures r <= b <==> a <= b * q
  {
    if r <= b {
      ProductLeq(r, b, q);
    } else {
      ProductLess(b, r, q);
    }
  }

  lemma ProductLeq(a: real, b: real, q: real)
    requires q >= 0.0 && a <= b
    ensures a * q <= b * q
  {
  }

  lemma ProductLess(a: real, b: real, q: real)
    requires q > 0.0 && a < b
    ensures a * q < b * q
  {
  }

  lemma AverageBelow(sum: real, prior: real, weight: real, n: real, each: real, top: real)
    requires weight > 0.0 && n >= 0.0 && sum <= n * each && each <= top && prior <= top
    ensures (sum + weight * prior) / (n + weight) <= top
  {
    ProductLeq(each, top, n);
    ProductLeq(prior, top, weight);
    Commute(each, n);
    Commute(top, n);
    Commute(prior, weight);
    Commute(top, weight);
    assert top * (n + weight) == top * n + top * weight;
    QuotientAtMost(sum + weight * prior, top, n + weight);
  }

  lemma AverageAbove(sum: real, prior: real, weight: real, n: real, w: real)
    requires weight > 0.0 && prior > 0.0 && sum >= 0.0 && 0.0 <= n <= w
    ensures 0.0 < weight * prior / (w + weight) <= (sum + weight * prior) / (n + weight)
  {
    var p := weight * prior;
    Positive(weight, prior);
    var low, mean := p / (w + weight), (sum + p) / (n + weight);
    assert low * (w + weight) == p && mean * (n + weight) == sum + p;
    QuotientAtMost(p, 0.0, w + weight);
    ProductLeq(n + weight, w + weight, low);
    Commute(n + weight, low);
    Commute(w + weight, low);
    if mean < low {
      ProductLess(mean, low, n + weight);
      assert false;
    }
  }

  lemma Commute(a: real, b: real)
    ensures a * b == b * a
  {
  }

  lemma Positive(a: real, b: real)
    requires a > 0.0 && b > 0.0
    ensures a * b > 0.0
  {
  }

  /** The smoothed mean is positive, at most the larger of the two intervals of the configuration, and at least
      5 * initial / (window + 5). */
  lemma MeanBounds(c: Config, s: Samples, now: Instant)
    requires Usable(c) && WellSampled(c, s, now)
    ensures PRIOR_WEIGHT * c.initialInterval / (c.samplingWindowSize as real + PRIOR_WEIGHT) <= Mean(c, s.intervals)
    ensures 0.0 < Mean(c, s.intervals) <= MaxReal(c.maxInterval, c.initialInterval)
  {
    hide Sum;
    var n, w := |s.intervals| as real, c.samplingWindowSize as real;
    SumBounds(s.intervals, c.maxInterval);
    AverageBelow(Sum(s.intervals), c.initialInterval, PRIOR_WEIGHT, n, c.maxInterval, MaxReal(c.maxInterval, c.initialInterval));
    AverageAbove(Sum(s.intervals), c.initialInterval, PRIOR_WEIGHT, n, w);
  }

  /** A node silent for longer than phiThreshold * max(maxInterval, initialInterval) is found dead. */
  lemma SilenceIsDetected(c: Config, s: Samples, now: Instant)
    requires Usable(c) && WellSampled(c, s, now)
    requires s.lastHeartbeat.Some?
    requires now - s.lastHeartbeat.value > c.phiThreshold * MaxReal(c.maxInterval, c.initialInterval)
    ensures !Alive(c, s, now)
  {
    if s.intervals != [] {
      var mean, elapsed := Mean(c, s.intervals), now - s.lastHeartbeat.value;
      MeanBounds(c, s, now);
      QuotientAtMost(elapsed, c.phiThreshold, mean);
      ProductLeq(mean, MaxReal(c.maxInterval, c.initialInterval), c.phiThreshold);
      assert mean * c.phiThreshold == c.phiThreshold * mean;
    }
  }

  /** A node with at least one interval is found alive within phiThreshold * 5 * initialInterval / (window + 5)
      of its last heartbeat. */
  lemma RecentHeartbeatIsAlive(c: Config, s: Samples, now: Instant)
    requires Usable(c) && WellSampled(c, s, now)
    requires s.intervals != [] && s.lastHeartbeat.Some?
    requires now - s.lastHeartbeat.value
             <= c.phiThreshold * (PRIOR_WEIGHT * c.initialInterval / (c.samplingWindowSize as real + PRIOR_WEIGHT))
    ensures Alive(c, s, now)
  {
    var mean, elapsed := Mean(c, s.intervals), now - s.lastHeartbeat.value;
    var low := PRIOR_WEIGHT * c.initialInterval / (c.samplingWindowSize as real + PRIOR_WEIGHT);
    MeanBounds(c, s, now);
    QuotientAtMost(elapsed, c.phiThreshold, mean);
    ProductLeq(low, mean, c.phiThreshold);
    assert mean * c.phiThreshold == c.phiThreshold * mean && low * c.phiThreshold == c.phiThreshold * low;
  }
}
