/** Catching up by exchanges that are cut short: with an owner that has stopped writing, every exchange that carries
    anything brings the replica closer, and a known number of them is enough. */
module Convergence {
  import opened Types
  import opened NodeStates
  import opened Replication
  import opened Reconciliation

  // ---------- the owner's tombstones ----------

  /** The owner holds no tombstone at or below its lastGcVersion: a receiver that collected as far takes them all. */
  predicate TombstonesAbove(o: NodeView) {
    forall k | k in o.keyValues && o.keyValues[k].status.ScheduledForDeletion() :: o.lastGcVersion < o.keyValues[k].version
  }

  /** No deletion is dated after `now`, and later versions are not dated earlier. */
  predicate Dated(o: NodeView, now: Instant) {
    && (forall k | k in o.keyValues && o.keyValues[k].status.ScheduledForDeletion() :: o.keyValues[k].status.since <= now)
    && (forall j, k | j in o.keyValues && k in o.keyValues
                      && o.keyValues[j].status.ScheduledForDeletion() && o.keyValues[k].status.ScheduledForDeletion()
                      && o.keyValues[j].version <= o.keyValues[k].version ::
          o.keyValues[j].status.since <= o.keyValues[k].status.since)
  }

  ghost predicate OwnState(o: NodeView, now: Instant) {
    o.lastGcVersion <= o.maxVersion && VersionsBounded(o) && Dated(o, now) && TombstonesAbove(o)
  }

  lemma WriteKeepsOwnState(o: NodeView, op: OwnerOp, now: Instant)
    requires OwnState(o, now)
    ensures OwnState(OwnerWrite(o, op, now), now)
  {
    var t := OwnerWrite(o, op, now);
    if TakesEffect(o, op) {
      WriteStores(o, op, now);
      hide OwnerWrite, TakesEffect;
      StoreKeepsOwnState(o, t, op.key, now);
    }
  }

  lemma WriteStores(o: NodeView, op: OwnerOp, now: Instant)
    requires TakesEffect(o, op) && VersionsBounded(o)
    ensures var t := OwnerWrite(o, op, now);
            && t.lastGcVersion == o.lastGcVersion && t.maxVersion == o.maxVersion + 1
            && op.key in t.keyValues && t.keyValues == o.keyValues[op.key := t.keyValues[op.key]]
            && t.keyValues[op.key].version == t.maxVersion
            && (t.keyValues[op.key].status.ScheduledForDeletion() ==> t.keyValues[op.key].status.since == now)
  {
  }

  lemma StoreKeepsOwnState(o: NodeView, t: NodeView, key: Text, now: Instant)
    requires OwnState(o, now) && t.lastGcVersion == o.lastGcVersion && t.maxVersion == o.maxVersion + 1
    requires key in t.keyValues && t.keyValues == o.keyValues[key := t.keyValues[key]]
    requires t.keyValues[key].version == t.maxVersion
    requires t.keyValues[key].status.ScheduledForDeletion() ==> t.keyValues[key].status.since == now
    ensures OwnState(t, now)
  {
    assert forall k | k in t.keyValues && k != key :: k in o.keyValues && t.keyValues[k] == o.keyValues[k];
  }

  lemma CollectionKeepsOwnState(o: NodeView, now: Instant, grace: Instant)
    requires OwnState(o, now)
    ensures OwnState(Collect(o, now, grace), now)
  {
    var t := Collect(o, now, grace);
    if t.lastGcVersion != o.lastGcVersion {
      var w :| w in o.keyValues && Expired(o.keyValues[w], now, grace) && o.keyValues[w].version == t.lastGcVersion;
      assert forall k | k in t.keyValues && t.keyValues[k].status.ScheduledForDeletion() :: !Expired(o.keyValues[k], now, grace);
    }
  }

  predicate OnlyLocal(es: seq<Event>) {
    forall e | e in es :: !e.Got?
  }

  function At(e: Event): Instant {
    e.at
  }

  /** What writes and collections make of a node's own state, on a clock that does not go back. */
  lemma {:induction false} OwnersHoldNoOldTombstones(es: seq<Event>, now: Instant)
    requires OnlyLocal(es) && forall i, j | 0 <= i <= j < |es| :: At(es[i]) <= At(es[j])
    requires forall e | e in es :: At(e) <= now
    ensures OwnState(AfterEvents(EMPTY_VIEW, es), now)
  {
    hide OwnerWrite, Collect;
    if es != [] {
      var init, e := es[..|es| - 1], es[|es| - 1];
      assert forall i | 0 <= i < |init| :: At(init[i]) <= At(e) by {
        assert forall i | 0 <= i < |init| :: At(es[i]) <= At(es[|es| - 1]);
      }
      OwnersHoldNoOldTombstones(init, At(e));
      var before := AfterEvents(EMPTY_VIEW, init);
      match e
      case Wrote(op, at) => WriteKeepsOwnState(before, op, at);
      case Collected(at, grace) => CollectionKeepsOwnState(before, at, grace);
    }
  }

  // ---------- one exchange that is cut short ----------

  /** The keys the owner has something newer for. */
  function Stale(o: NodeView, floor: Version): set<Text> {
    set k | k in o.keyValues && o.keyValues[k].version > floor
  }

  /** From where the owner answers the replica. */
  function Floor(o: NodeView, r: NodeView): Version {
    FromVersion(o.lastGcVersion, r.lastGcVersion, r.maxVersion)
  }

  /** A replica with digest (rGc, rMax) can catch up with an owner at (oGc, oMax): it does not stand at the owner's
      lastGcVersion without having collected as far; and it has not collected beyond all that it has seen and the owner
      collected, unless at most one version is left there. */
  predicate CanCatchUp(rGc: Version, rMax: Version, oGc: Version, oMax: Version) {
    && !(rGc < oGc && rMax == oGc)
    && (rGc <= Max(rMax, oGc) || oMax <= Max(rMax, oGc) + 1)
  }

  ghost predicate CatchingUp(log: Log, o: NodeView, r: NodeView) {
    && Faithful(log, o) && o.maxVersion == |log| && TombstonesAbove(o) && Faithful(log, r)
    && CanCatchUp(r.lastGcVersion, r.maxVersion, o.lastGcVersion, o.maxVersion)
  }

  lemma FirstIsStale(o: NodeView, gc: Version, max: Version, d: NodeDelta)
    requires DeltaFrom(o, gc, max, d) && d.keyValues != []
    ensures var m := d.keyValues[0];
            m.key in o.keyValues && m == MutationOf(m.key, o.keyValues[m.key]) && d.fromVersionExcluded < m.version <= o.maxVersion
  {
    var stale := StaleKeyValues(o, d.fromVersionExcluded);
    SliceElements(o.keyValues, d.fromVersionExcluded, o.maxVersion);
    assert d.keyValues[0] == stale[0] && stale[0] in stale;
  }

  lemma FirstIsOldest(o: NodeView, gc: Version, max: Version, d: NodeDelta, k: Text)
    requires VersionsBounded(o) && VersionsDistinct(o) && DeltaFrom(o, gc, max, d) && d.keyValues != []
    requires k in o.keyValues && d.fromVersionExcluded < o.keyValues[k].version
    ensures d.keyValues[0].version <= o.keyValues[k].version
  {
    SliceElements(o.keyValues, d.fromVersionExcluded, o.maxVersion);
    SliceContains(o.keyValues, d.fromVersionExcluded, o.maxVersion, k);
  }

  /** Whatever a receiver takes of a delta, it takes the first entry, unless that is a tombstone it collected. */
  predicate FirstIsRefused(r: NodeView, d: NodeDelta)
    requires d.keyValues != []
  {
    d.keyValues[0].status.ScheduledForDeletion() && d.keyValues[0].version <= r.lastGcVersion && Applicable(r, d)
  }

  /** Unless the first entry is refused, less is stale afterwards. */
  lemma FirstTakenIsProgress(o: NodeView, r: NodeView, d: NodeDelta, now: Instant)
    requires TombstonesAbove(o) && DeltaFrom(o, r.lastGcVersion, r.maxVersion, d) && d.keyValues != []
    requires !FirstIsRefused(r, d)
    ensures var t := ApplyDelta(r, d, now);
            && |Stale(o, Floor(o, t))| < |Stale(o, Floor(o, r))|
            && (if Applicable(r, d) then t.lastGcVersion == r.lastGcVersion && r.maxVersion <= t.maxVersion
                else t.lastGcVersion == o.lastGcVersion)
  {
    hide TombstonesAbove;
    var t, m := ApplyDelta(r, d, now), d.keyValues[0];
    FirstIsStale(o, r.lastGcVersion, r.maxVersion, d);
    TombstoneIsNew(o, m);
    if Applicable(r, d) {
      ApplyMutationsProgress(r, r.maxVersion, d.keyValues, now);
    } else {
      ApplyMutationsProgress(ResetView(d), 0, d.keyValues, now);
    }
    assert m.version <= t.maxVersion;
    LessIsStale(o, Floor(o, r), Floor(o, t), m.key);
  }

  lemma TombstoneIsNew(o: NodeView, m: KeyValueMutation)
    requires TombstonesAbove(o) && m.key in o.keyValues && m == MutationOf(m.key, o.keyValues[m.key])
    ensures m.status.ScheduledForDeletion() ==> m.version > o.lastGcVersion
  {
  }

  lemma LessIsStale(o: NodeView, low: Version, high: Version, k: Text)
    requires k in o.keyValues && low < o.keyValues[k].version <= high
    ensures |Stale(o, high)| < |Stale(o, low)|
  {
    var more, less := Stale(o, low), Stale(o, high);
    assert less <= more - {k};
    SmallerSet(less, more - {k});
  }

  lemma {:induction false} SmallerSet(a: set<Text>, b: set<Text>)
    requires a <= b
    ensures |a| <= |b|
  {
    if a != {} {
      var x :| x in a;
      SmallerSet(a - {x}, b - {x});
    }
  }

  // ---------- exactly when an exchange makes progress ----------

  ghost predicate EntryProgresses(log: Log, s: NodeView, r: NodeView, d: NodeDelta, now: Instant) {
    && Faithful(log, s) && TombstonesAbove(s) && Faithful(log, r)
    && DeltaFrom(s, r.lastGcVersion, r.maxVersion, d) && d.keyValues != []
    ==> |Stale(s, Floor(s, ApplyDelta(r, d, now)))| < |Stale(s, Floor(s, r))|
  }

  /** A receiver with digest (rGc, rMax) gets closer to a sender at (sGc, sMax) with every exchange that carries an
      entry, whatever faithful states these are. */
  ghost predicate ProgressSure(rGc: Version, rMax: Version, sGc: Version, sMax: Version) {
    forall log: Log, s: NodeView, r: NodeView, d: NodeDelta, now: Instant {:trigger EntryProgresses(log, s, r, d, now)} ::
      r.lastGcVersion == rGc && r.maxVersion == rMax && s.lastGcVersion == sGc && s.maxVersion == sMax
      ==> EntryProgresses(log, s, r, d, now)
  }

  /** Every exchange that carries an entry makes progress, unless there are versions that the receiver collected and
      the sender has seen, beyond all that the receiver has seen and the sender collected. */
  lemma ProgressExactly(rGc: Version, rMax: Version, sGc: Version, sMax: Version)
    requires rMax < sMax
    ensures ProgressSure(rGc, rMax, sGc, sMax) <==> !(Max(rMax, sGc) < Min(rGc, sMax))
  {
    if Max(rMax, sGc) < Min(rGc, sMax) {
      var log, s, r, d := Livelock(rGc, rMax, sGc, sMax);
      assert ApplyDelta(r, d, 0.0) == r;
      assert !EntryProgresses(log, s, r, d, 0.0);
    } else {
      forall log: Log, s: NodeView, r: NodeView, d: NodeDelta, now: Instant |
        && r.lastGcVersion == rGc && r.maxVersion == rMax && s.lastGcVersion == sGc && s.maxVersion == sMax
        && Faithful(log, s) && TombstonesAbove(s) && Faithful(log, r) && DeltaFrom(s, rGc, rMax, d) && d.keyValues != []
        ensures EntryProgresses(log, s, r, d, now)
      {
        FirstIsStale(s, rGc, rMax, d);
        TombstoneIsNew(s, d.keyValues[0]);
        FirstTakenIsProgress(s, r, d, now);
      }
    }
  }

  /** Key A is written up to version v, the last time to expire; then key B. */
  function ExpiringAt(v: Version, n: nat): Log {
    seq(n, i => Write(if i < v then KEY_A else KEY_B, [], if i == v - 1 then MutDeleteAfterTtl else MutSet))
  }

  function ExpiringView(v: Version, max: Version, gc: Version): NodeView {
    var a := map[KEY_A := VersionedValue([], v, DeleteAfterTtl(0.0))];
    NodeView(0, if v < max then a[KEY_B := PlainEntry(max)] else a, max, gc)
  }

  function ExpiringMutation(v: Version): KeyValueMutation {
    KeyValueMutation(KEY_A, [], v, MutDeleteAfterTtl)
  }

  lemma LatestOfExpiring(v: Version, n: nat)
    requires 0 < v <= n
    ensures var log := ExpiringAt(v, n);
            && Latest(log, KEY_A) == v && DeletedAt(log, v)
            && (v < n ==> Latest(log, KEY_B) == n && !DeletedAt(log, n)) && (v == n ==> Latest(log, KEY_B) == 0)
  {
    var log := ExpiringAt(v, n);
    assert log[v - 1].key == KEY_A;
    if v < n {
      assert log[n - 1].key == KEY_B;
    }
  }

  lemma ExpiringIsFaithful(v: Version, n: nat, max: Version, gc: Version)
    requires 0 < v <= max <= n && gc < v
    ensures Faithful(ExpiringAt(v, n), ExpiringView(v, max, gc)) && TombstonesAbove(ExpiringView(v, max, gc))
  {
    LatestOfExpiring(v, n);
    TwoKeyStateIsFaithful(ExpiringAt(v, n), ExpiringView(v, max, gc));
  }

  lemma CollectedIsFaithful(v: Version, n: nat, max: Version, gc: Version)
    requires max < v <= gc <= n
    ensures Faithful(ExpiringAt(v, n), NodeView(0, map[], max, gc))
  {
    LatestOfExpiring(v, n);
    TwoKeyStateIsFaithful(ExpiringAt(v, n), NodeView(0, map[], max, gc));
  }

  lemma ExpiringDelta(v: Version, max: Version, gc: Version, digestGc: Version, digestMax: Version)
    requires gc < v <= max && digestMax < v <= digestGc
    ensures DeltaFrom(ExpiringView(v, max, gc), digestGc, digestMax, NodeDelta(SOMEONE, digestMax, gc, [ExpiringMutation(v)], None))
  {
    var s, m := ExpiringView(v, max, gc), ExpiringMutation(v);
    if v < max {
      StaleKeyValuesIsTheSort(s, digestMax, [m, PlainMutation(KEY_B, max)]);
    } else {
      StaleKeyValuesIsTheSort(s, digestMax, [m]);
    }
  }

  /** A receiver that has collected an entry that expires, but has not seen its version: the sender answers with that
      entry, the receiver refuses it and asks the same again. */
  lemma Livelock(rGc: Version, rMax: Version, sGc: Version, sMax: Version)
    returns (log: Log, s: NodeView, r: NodeView, d: NodeDelta)
    requires Max(rMax, sGc) < Min(rGc, sMax)
    ensures Faithful(log, s) && s.lastGcVersion == sGc && s.maxVersion == sMax && TombstonesAbove(s)
    ensures Faithful(log, r) && r.lastGcVersion == rGc && r.maxVersion == rMax
    ensures rGc <= sMax ==> |log| == sMax
    ensures DeltaFrom(s, rGc, rMax, d) && d.keyValues != [] && forall now :: ApplyDelta(r, d, now) == r
    ensures Max(rMax, sGc) + 1 < sMax ==> !Converged(log, s, r)
  {
    hide Faithful, DeltaFrom, TombstonesAbove;
    var v, n := Max(rMax, sGc) + 1, Max(rGc, sMax);
    log, s, r := ExpiringAt(v, n), ExpiringView(v, sMax, sGc), NodeView(0, map[], rMax, rGc);
    d := NodeDelta(SOMEONE, rMax, sGc, [ExpiringMutation(v)], None);
    LatestOfExpiring(v, n);
    ExpiringIsFaithful(v, n, sMax, sGc);
    CollectedIsFaithful(v, n, rMax, rGc);
    ExpiringDelta(v, sMax, sGc, rGc, rMax);
    forall now ensures ApplyDelta(r, d, now) == r {
      ApplyOne(r, ExpiringMutation(v), now);
    }
    if v < sMax {
      assert !Agree(log, s, r, KEY_B);
    }
  }

  // ---------- one exchange that is cut short ----------

  /** Every exchange that carries an entry takes at least one off what is stale, or the replica agrees with the owner
      and stays as it is. */
  lemma ExchangeProgresses(log: Log, o: NodeView, r: NodeView, d: NodeDelta, now: Instant)
    requires CatchingUp(log, o, r) && DeltaFrom(o, r.lastGcVersion, r.maxVersion, d) && d.keyValues != []
    ensures var t := ApplyDelta(r, d, now);
            && CatchingUp(log, o, t)
            && (|Stale(o, Floor(o, t))| < |Stale(o, Floor(o, r))| || (t == r && Settles(log, o, r)))
  {
    if FirstIsRefused(r, d) {
      RefusedIsTheLast(log, o, r, d, now);
    } else {
      FirstTakenIsProgress(o, r, d, now);
      DeltaFromIsFaithful(log, o, r.lastGcVersion, r.maxVersion, d);
      hide Faithful, TombstonesAbove, DeltaFrom;
      KeepsCatchingUp(log, o, r, d, now);
    }
  }

  lemma KeepsCatchingUp(log: Log, o: NodeView, r: NodeView, d: NodeDelta, now: Instant)
    requires CatchingUp(log, o, r) && DeltaFrom(o, r.lastGcVersion, r.maxVersion, d)
    requires FaithfulDelta(log, d, o.maxVersion, CoveredUpTo(o, d))
    requires var t := ApplyDelta(r, d, now);
             if Applicable(r, d) then t.lastGcVersion == r.lastGcVersion && r.maxVersion <= t.maxVersion
             else t == r || t.lastGcVersion == o.lastGcVersion
    ensures CatchingUp(log, o, ApplyDelta(r, d, now))
  {
    assert r.lastGcVersion <= |log|;
    hide Faithful, FaithfulDelta, ApplyDelta;
    ApplyKeepsFaithful(log, r, d, o.maxVersion, CoveredUpTo(o, d), now);
  }

  /** The replica stays as it is: it has the last word on everything, and there is one stale entry only, which it
      collected. */
  ghost predicate Settles(log: Log, o: NodeView, r: NodeView) {
    && Converged(log, o, r)
    && r.maxVersion < o.maxVersion && o.lastGcVersion <= r.lastGcVersion
    && exists m :: StaleKeyValues(o, r.maxVersion) == [m] && m.status.ScheduledForDeletion() && m.version <= r.lastGcVersion
  }

  /** A refused entry is the owner's last write and all that is stale. */
  lemma RefusedIsTheLast(log: Log, o: NodeView, r: NodeView, d: NodeDelta, now: Instant)
    requires CatchingUp(log, o, r) && DeltaFrom(o, r.lastGcVersion, r.maxVersion, d) && d.keyValues != []
    requires FirstIsRefused(r, d)
    ensures ApplyDelta(r, d, now) == r && Settles(log, o, r)
  {
    var m := d.keyValues[0];
    FirstIsStale(o, r.lastGcVersion, r.maxVersion, d);
    TombstoneIsNew(o, m);
    assert m.version == o.maxVersion;
    GenuineVersionsDistinct(log, o);
    forall k | k in o.keyValues && r.maxVersion < o.keyValues[k].version ensures m.version <= o.keyValues[k].version {
      FirstIsOldest(o, r.lastGcVersion, r.maxVersion, d, k);
    }
    assert GenuineEntry(log, o, m.key);
    OneIsStale(o, r.maxVersion, m);
    ApplyOne(r, m, now);
    forall key ensures Agree(log, o, r, key) {
      CollectedIsSettled(log, o, r, m, key);
      SeenIsSettled(log, o, key);
      SettledAgree(log, o, r, key);
    }
  }

  lemma OneIsStale(o: NodeView, floor: Version, m: KeyValueMutation)
    requires VersionsBounded(o) && VersionsDistinct(o)
    requires m.key in o.keyValues && m == MutationOf(m.key, o.keyValues[m.key]) && floor < m.version == o.maxVersion
    requires forall k | k in o.keyValues && floor < o.keyValues[k].version :: m.version <= o.keyValues[k].version
    ensures StaleKeyValues(o, floor) == [m]
  {
    StaleKeyValuesIsTheSort(o, floor, [m]);
  }

  lemma CollectedIsSettled(log: Log, o: NodeView, r: NodeView, m: KeyValueMutation, key: Text)
    requires Faithful(log, o) && Faithful(log, r) && r.maxVersion < o.maxVersion == |log|
    requires m.version == o.maxVersion <= r.lastGcVersion && m.status.ScheduledForDeletion()
    requires IsWrite(log, m.key, m.value, m.version, m.status)
    requires forall k | k in o.keyValues && r.maxVersion < o.keyValues[k].version :: m.version <= o.keyValues[k].version
    ensures Settled(log, r, key)
  {
    assert Current(log, r, key);
    SeenIsSettled(log, o, key);
    if Latest(log, key) <= r.maxVersion {
      SeenIsSettled(log, r, key);
    }
  }

  // ---------- many ----------

  /** What the replica goes through: it asks with its present digest, and while the owner has news the delta it gets
      carries at least one operation. */
  ghost predicate Exchanges(o: NodeView, rs: seq<NodeView>, ds: seq<NodeDelta>, nows: seq<Instant>) {
    && |rs| == |ds| + 1 == |nows| + 1
    && (forall i | 0 <= i < |ds| :: Exchange(o, rs[i], ds[i], nows[i], rs[i + 1]))
  }

  ghost predicate Exchange(o: NodeView, r: NodeView, d: NodeDelta, now: Instant, t: NodeView) {
    && (r.maxVersion < o.maxVersion ==>
          DeltaFrom(o, r.lastGcVersion, r.maxVersion, d) && (d.keyValues != [] || d.maxVersion.Some?))
    && t == AfterExchange(o, r, d, now)
  }

  /** An exchange without entries is whole, and the replica then agrees with the owner. */
  lemma LastExchange(log: Log, o: NodeView, r: NodeView, d: NodeDelta, now: Instant)
    requires CatchingUp(log, o, r)
    requires r.maxVersion < o.maxVersion ==>
               DeltaFrom(o, r.lastGcVersion, r.maxVersion, d) && d.keyValues == [] && d.maxVersion.Some?
    ensures var t := AfterExchange(o, r, d, now);
            CatchingUp(log, o, t) && Converged(log, o, t) && Stale(o, Floor(o, t)) == {}
  {
    OneExchangeConverges(log, o, r, d, now);
    GenuineVersionsDistinct(log, o);
    if r.maxVersion < o.maxVersion {
      DeltaFromIsFaithful(log, o, r.lastGcVersion, r.maxVersion, d);
      assert ApplyMutations(r, r.maxVersion, [], now) == r;
      assert ApplyMutations(ResetView(d), ResetView(d).maxVersion, [], now) == ResetView(d);
      KeepsCatchingUp(log, o, r, d, now);
      NothingStale(o, d.fromVersionExcluded);
    }
  }

  lemma NothingStale(o: NodeView, floor: Version)
    requires VersionsBounded(o) && VersionsDistinct(o) && StaleKeyValues(o, floor) == []
    ensures Stale(o, floor) == {}
  {
    forall k | k in o.keyValues ensures k !in Stale(o, floor) {
      if o.keyValues[k].version > floor {
        SliceContains(o.keyValues, floor, o.maxVersion, k);
      }
    }
  }

  /** Once settled, always settled. */
  lemma {:induction false} SettledStays(log: Log, o: NodeView, rs: seq<NodeView>, ds: seq<NodeDelta>, nows: seq<Instant>, n: nat)
    requires Exchanges(o, rs, ds, nows) && n <= |ds| && Settles(log, o, rs[0])
    ensures rs[n] == rs[0]
  {
    if n > 0 {
      SettledStays(log, o, rs, ds, nows, n - 1);
      assert Exchange(o, rs[n - 1], ds[n - 1], nows[n - 1], rs[n]);
      hide Converged;
      RefusedOnceMore(log, o, rs[0], ds[n - 1], nows[n - 1]);
    }
  }

  lemma RefusedOnceMore(log: Log, o: NodeView, r: NodeView, d: NodeDelta, now: Instant)
    requires Settles(log, o, r) && Exchange(o, r, d, now, AfterExchange(o, r, d, now))
    ensures AfterExchange(o, r, d, now) == r
  {
    hide Converged;
    var m :| StaleKeyValues(o, r.maxVersion) == [m] && m.status.ScheduledForDeletion() && m.version <= r.lastGcVersion;
    assert d.keyValues == [m];
    ApplyOne(r, m, now);
  }

  /** As many exchanges as there are stale entries, and one more, make a replica that can catch up agree with an owner
      that does not write meanwhile, however short each of them was cut. */
  lemma {:induction false} TruncatedExchangesConverge(log: Log, o: NodeView, rs: seq<NodeView>, ds: seq<NodeDelta>, nows: seq<Instant>)
    requires Exchanges(o, rs, ds, nows) && CatchingUp(log, o, rs[0])
    requires |ds| > |Stale(o, Floor(o, rs[0]))|
    ensures Converged(log, o, rs[|ds|])
    decreases |ds|
  {
    hide CatchingUp, Converged, AfterExchange, DeltaFrom, Settles;
    var r, d, t := rs[0], ds[0], rs[1];
    assert Exchange(o, r, d, nows[0], t);
    if r.maxVersion < o.maxVersion && d.keyValues != [] {
      Asks(o, r, d, nows[0]);
      ExchangeProgresses(log, o, r, d, nows[0]);
    } else {
      LastExchange(log, o, r, d, nows[0]);
    }
    if |Stale(o, Floor(o, t))| >= |Stale(o, Floor(o, r))| && t == r && Settles(log, o, r) {
      SettledIsConverged(log, o, r);
      SettledStays(log, o, rs, ds, nows, |ds|);
    } else if |ds| > 1 {
      assert Exchanges(o, rs[1..], ds[1..], nows[1..]) by {
        forall i | 0 <= i < |ds| - 1 ensures Exchange(o, rs[1..][i], ds[1..][i], nows[1..][i], rs[1..][i + 1]) {
          assert Exchange(o, rs[i + 1], ds[i + 1], nows[i + 1], rs[i + 2]);
        }
      }
      TruncatedExchangesConverge(log, o, rs[1..], ds[1..], nows[1..]);
    }
  }

  lemma SettledIsConverged(log: Log, o: NodeView, r: NodeView)
    requires Settles(log, o, r)
    ensures Converged(log, o, r)
  {
  }

  lemma Asks(o: NodeView, r: NodeView, d: NodeDelta, now: Instant)
    requires r.maxVersion < o.maxVersion
    ensures AfterExchange(o, r, d, now) == ApplyDelta(r, d, now)
  {
  }

  // ---------- exactly who can catch up ----------

  ghost predicate CatchesUp(log: Log, o: NodeView, rs: seq<NodeView>, ds: seq<NodeDelta>, nows: seq<Instant>) {
    && Exchanges(o, rs, ds, nows) && |ds| > |Stale(o, Floor(o, rs[0]))|
    && Faithful(log, o) && o.maxVersion == |log| && TombstonesAbove(o) && Faithful(log, rs[0])
    ==> Converged(log, o, rs[|ds|])
  }

  /** Whatever states have these digests, one exchange more than there are stale entries is enough. */
  ghost predicate CatchUpSure(rGc: Version, rMax: Version, oGc: Version, oMax: Version) {
    forall log: Log, o: NodeView, rs: seq<NodeView>, ds: seq<NodeDelta>, nows: seq<Instant>
      {:trigger CatchesUp(log, o, rs, ds, nows)} ::
      |rs| > 0 && rs[0].lastGcVersion == rGc && rs[0].maxVersion == rMax && o.lastGcVersion == oGc && o.maxVersion == oMax
      ==> CatchesUp(log, o, rs, ds, nows)
  }

  /** The same exchange any number of times. */
  lemma SameAgain(o: NodeView, r: NodeView, d: NodeDelta, n: nat) returns (rs: seq<NodeView>, ds: seq<NodeDelta>, nows: seq<Instant>)
    requires Exchange(o, r, d, 0.0, r)
    ensures Exchanges(o, rs, ds, nows) && |ds| == n && rs[0] == r && rs[n] == r
  {
    rs, ds, nows := seq(n + 1, _ => r), seq(n, _ => d), seq(n, _ => 0.0);
  }

  /** For which digests a replica is certain to catch up with the owner.  (No faithful replica has collected beyond the
      owner's last write.) */
  lemma CatchUpExactly(rGc: Version, rMax: Version, oGc: Version, oMax: Version)
    requires rMax < oMax
    ensures CatchUpSure(rGc, rMax, oGc, oMax) <==> CanCatchUp(rGc, rMax, oGc, oMax) || oMax < rGc
  {
    if oMax < rGc {
      hide Exchanges, TombstonesAbove, Complete, Stale, Floor, Converged;
      assert CatchUpSure(rGc, rMax, oGc, oMax);
      return;
    }
    if CanCatchUp(rGc, rMax, oGc, oMax) {
      forall log: Log, o: NodeView, rs: seq<NodeView>, ds: seq<NodeDelta>, nows: seq<Instant> |
        && |rs| > 0 && rs[0].lastGcVersion == rGc && rs[0].maxVersion == rMax && o.lastGcVersion == oGc && o.maxVersion == oMax
        && Exchanges(o, rs, ds, nows) && |ds| > |Stale(o, Floor(o, rs[0]))|
        && Faithful(log, o) && o.maxVersion == |log| && TombstonesAbove(o) && Faithful(log, rs[0])
        ensures CatchesUp(log, o, rs, ds, nows)
      {
        hide Faithful, TombstonesAbove, Exchanges, Stale, Floor, Converged;
        TruncatedExchangesConverge(log, o, rs, ds, nows);
      }
    } else if rGc < oGc && rMax == oGc {
      LossIsForGood(rGc, oGc, oMax);
    } else {
      hide Converged, Faithful, DeltaFrom, TombstonesAbove, Exchanges, Stale;
      var log, o, r, d := Livelock(rGc, rMax, oGc, oMax);
      Asks(o, r, d, 0.0);
      var rs, ds, nows := SameAgain(o, r, d, |Stale(o, Floor(o, r))| + 1);
      assert !CatchesUp(log, o, rs, ds, nows);
    }
  }

  /** What a reset by a delta that does not start at 0 has dropped does not come back. */
  lemma LossIsForGood(rGc: Version, gc: Version, oMax: Version)
    requires rGc < gc < oMax
    ensures !CatchUpSure(rGc, gc, gc, oMax)
  {
    hide Faithful, DeltaFrom, Exchanges, Stale, ApplyDelta;
    var log, r, o, d := LossyReset(rGc, gc, oMax);
    var t := ApplyDelta(r, d, 0.0);
    Asks(o, r, d, 0.0);
    assert Exchange(o, r, d, 0.0, t) by {
      assert DeltaFrom(o, rGc, gc, d) && Untruncated(o, d);
    }
    var rs, ds, nows := SameAgain(o, t, d, |Stale(o, Floor(o, r))|);
    Prepend(o, r, d, 0.0, rs, ds, nows);
    assert !Agree(log, o, t, KEY_A);
    assert !CatchesUp(log, o, [r] + rs, [d] + ds, [0.0] + nows);
  }

  lemma Prepend(o: NodeView, r: NodeView, d: NodeDelta, now: Instant, rs: seq<NodeView>, ds: seq<NodeDelta>, nows: seq<Instant>)
    requires Exchanges(o, rs, ds, nows) && Exchange(o, r, d, now, rs[0])
    ensures Exchanges(o, [r] + rs, [d] + ds, [now] + nows)
  {
    hide Exchange;
    forall i | 0 <= i < |ds| + 1 ensures Exchange(o, ([r] + rs)[i], ([d] + ds)[i], ([now] + nows)[i], ([r] + rs)[i + 1]) {
      if i > 0 {
        assert Exchange(o, rs[i - 1], ds[i - 1], nows[i - 1], rs[i]);
      }
    }
  }
}
