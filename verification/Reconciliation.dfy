/** What one exchange does: when it preserves the scuttlebutt invariant, when it converges, and exactly
    for which digests it may fail to. */
module Reconciliation {
  import opened Types
  import opened NodeStates
  import opened Replication

  predicate DistinctKeys(ms: seq<KeyValueMutation>) {
    forall i, j | 0 <= i < j < |ms| :: ms[i].key != ms[j].key
  }

  predicate Takes(current: Version, gc: Version, ms: seq<KeyValueMutation>, key: Text) {
    exists i :: 0 <= i < |ms| && ms[i].key == key && Accepts(current, gc, ms[i])
  }

  predicate SameEntry(s: NodeView, t: NodeView, key: Text) {
    (key in s.keyValues <==> key in t.keyValues) && (key in s.keyValues ==> s.keyValues[key] == t.keyValues[key])
  }

  /** The keys of accepted mutations hold them afterwards; no other key changes. */
  lemma {:induction false} ApplyMutationsEffect(s: NodeView, current: Version, ms: seq<KeyValueMutation>, now: Instant)
    requires s.maxVersion == current && VersionsBounded(s) && DistinctKeys(ms)
    ensures var t := ApplyMutations(s, current, ms, now);
            && (forall i | 0 <= i < |ms| && Accepts(current, s.lastGcVersion, ms[i]) ::
                  ms[i].key in t.keyValues && t.keyValues[ms[i].key] == Received(ms[i], now))
            && (forall key | !Takes(current, s.lastGcVersion, ms, key) :: SameEntry(s, t, key))
  {
    ApplyMutationsProgress(s, current, ms, now);
    if ms != [] {
      var init, m := ms[..|ms| - 1], ms[|ms| - 1];
      var gc := s.lastGcVersion;
      ApplyMutationsEffect(s, current, init, now);
      ApplyMutationsProgress(s, current, init, now);
      var before, t := ApplyMutations(s, current, init, now), ApplyMutations(s, current, ms, now);
      assert !Takes(current, gc, init, m.key);
      assert SameEntry(s, before, m.key);
      forall key | !Takes(current, gc, ms, key) ensures SameEntry(s, t, key) {
        assert !Takes(current, gc, init, key);
        assert SameEntry(s, before, key);
      }
    }
  }

  // ---------- genuineness needs no hypothesis ----------

  /** Applying a genuine delta to a genuine state gives a genuine state. */
  lemma ApplyKeepsGenuine(log: Log, r: NodeView, d: NodeDelta, now: Instant)
    requires Genuine(log, r) && GenuineDelta(log, d)
    ensures Genuine(log, ApplyDelta(r, d, now))
  {
    ApplyMutationsKeepsGenuine(log, r, r.maxVersion, d.keyValues, now);
    ApplyMutationsKeepsGenuine(log, ResetView(d), ResetView(d).maxVersion, d.keyValues, now);
  }

  lemma {:induction false} ApplyMutationsKeepsGenuine(
      log: Log, s: NodeView, current: Version, ms: seq<KeyValueMutation>, now: Instant)
    requires Genuine(log, s)
    requires forall m | m in ms :: IsWrite(log, m.key, m.value, m.version, m.status)
    ensures Genuine(log, ApplyMutations(s, current, ms, now))
  {
    if ms != [] {
      var init, m := ms[..|ms| - 1], ms[|ms| - 1];
      assert forall x | x in init :: x in ms;
      ApplyMutationsKeepsGenuine(log, s, current, init, now);
      var before, t := ApplyMutations(s, current, init, now), ApplyMutations(s, current, ms, now);
      assert m in ms;
      forall k | k in t.keyValues ensures GenuineEntry(log, t, k) {
        if k in before.keyValues {
          assert GenuineEntry(log, before, k);
        }
      }
    }
  }

  // ---------- the invariant, under the two hypotheses ----------

  /** The two conditions on a delta at the moment it is received: a resetting delta starts at 0, and a delta applied
      in place that may bring news comes from a sender that saw at least as far as the receiver collected. */
  predicate SafeToReceive(r: NodeView, d: NodeDelta, senderMax: Version) {
    && (Resets(r, d) ==> d.fromVersionExcluded == 0)
    && (Applicable(r, d) && r.maxVersion < senderMax ==> r.lastGcVersion <= Max(senderMax, d.lastGcVersion))
  }

  lemma NothingNewIsANoOp(r: NodeView, d: NodeDelta, senderMax: Version, now: Instant)
    requires Applicable(r, d) && senderMax <= r.maxVersion && forall m | m in d.keyValues :: m.version <= senderMax
    ensures ApplyDelta(r, d, now) == r
  {
    ApplyDeltaProgress(r, d, now);
    forall i | 0 <= i < |d.keyValues| ensures !Accepts(r.maxVersion, r.lastGcVersion, d.keyValues[i]) {
      assert d.keyValues[i] in d.keyValues;
    }
  }

  lemma ApplyKeepsFaithful(log: Log, r: NodeView, d: NodeDelta, senderMax: Version, upto: Version, now: Instant)
    requires Faithful(log, r) && FaithfulDelta(log, d, senderMax, upto)
    requires SafeToReceive(r, d, senderMax)
    ensures Faithful(log, ApplyDelta(r, d, now))
  {
    ApplyKeepsGenuine(log, r, d, now);
    GenuineVersionsDistinct(log, r);
    if Applicable(r, d) {
      if r.maxVersion < senderMax {
        ApplyInPlaceKeepsComplete(log, r, d, senderMax, upto, now);
      } else {
        NothingNewIsANoOp(r, d, senderMax, now);
      }
    } else if Resets(r, d) {
      ApplyResetKeepsComplete(log, r, d, senderMax, upto, now);
    }
  }

  /** What applying `d` on top of `s` leaves under one key, compared with the owner's latest write. */
  lemma KeyAfterApply(log: Log, s: NodeView, d: NodeDelta, senderMax: Version, upto: Version, now: Instant, key: Text)
    requires VersionsBounded(s) && FaithfulDelta(log, d, senderMax, upto)
    ensures var t := ApplyMutations(s, s.maxVersion, d.keyValues, now);
            var v := Latest(log, key);
            if Takes(s.maxVersion, s.lastGcVersion, d.keyValues, key) then
              && Mentions(d, key)
              && key in t.keyValues
              && s.maxVersion < t.keyValues[key].version <= v
              && t.keyValues[key].version <= t.maxVersion
              && (DeletedAt(log, v) && t.keyValues[key].version == v ==> v > s.lastGcVersion)
              && (t.keyValues[key].version == v || !Carries(d, key, v))
            else
              && SameEntry(s, t, key)
              && (Carries(d, key, v) ==> v <= s.maxVersion || (DeletedAt(log, v) && v <= s.lastGcVersion))
  {
    var t, v, cur, gc := ApplyMutations(s, s.maxVersion, d.keyValues, now), Latest(log, key), s.maxVersion, s.lastGcVersion;
    ApplyMutationsProgress(s, cur, d.keyValues, now);
    ApplyMutationsEffect(s, cur, d.keyValues, now);
    if Takes(cur, gc, d.keyValues, key) {
      var i :| 0 <= i < |d.keyValues| && d.keyValues[i].key == key && Accepts(cur, gc, d.keyValues[i]);
      assert t.keyValues[key] == Received(d.keyValues[i], now);
      hide ApplyMutations, FaithfulDelta, Accepts, Received, DeletedAt, Carries;
      TakenIsMentioned(log, s, d, senderMax, upto, i);
    } else if Carries(d, key, v) {
      hide ApplyMutations, FaithfulDelta, Takes, Carries;
      RefusedIsOld(log, s, d, key, v);
    }
  }

  /** An accepted mutation is the only one of its key, and a write of the log. */
  lemma TakenIsMentioned(log: Log, s: NodeView, d: NodeDelta, senderMax: Version, upto: Version, i: nat)
    requires FaithfulDelta(log, d, senderMax, upto)
    requires i < |d.keyValues| && Accepts(s.maxVersion, s.lastGcVersion, d.keyValues[i])
    ensures var m := d.keyValues[i];
            var v := Latest(log, m.key);
            && Mentions(d, m.key) && s.maxVersion < m.version <= v
            && (DeletedAt(log, v) && m.version == v ==> v > s.lastGcVersion)
            && (m.version == v || !Carries(d, m.key, v))
  {
    assert d.keyValues[i] in d.keyValues;
  }

  /** What was not accepted is no newer than the state, or a deletion that the state has collected. */
  lemma RefusedIsOld(log: Log, s: NodeView, d: NodeDelta, key: Text, v: Version)
    requires GenuineDelta(log, d) && !Takes(s.maxVersion, s.lastGcVersion, d.keyValues, key) && Carries(d, key, v)
    ensures v <= s.maxVersion || (DeletedAt(log, v) && v <= s.lastGcVersion)
  {
    var i :| 0 <= i < |d.keyValues| && d.keyValues[i].key == key && d.keyValues[i].version == v;
    assert d.keyValues[i] in d.keyValues && !Accepts(s.maxVersion, s.lastGcVersion, d.keyValues[i]);
  }

  lemma ApplyInPlaceKeepsComplete(log: Log, r: NodeView, d: NodeDelta, senderMax: Version, upto: Version, now: Instant)
    requires Complete(log, r) && VersionsBounded(r) && FaithfulDelta(log, d, senderMax, upto)
    requires Applicable(r, d) && r.lastGcVersion <= Max(senderMax, d.lastGcVersion)
    ensures Complete(log, ApplyDelta(r, d, now))
  {
    var t := ApplyDelta(r, d, now);
    ApplyMutationsProgress(r, r.maxVersion, d.keyValues, now);
    assert t.maxVersion == r.maxVersion || t.maxVersion <= upto;
    forall key ensures Current(log, t, key) {
      assert Current(log, r, key) && Transmits(log, d, senderMax, upto, key);
      KeyAfterApply(log, r, d, senderMax, upto, now, key);
    }
  }

  lemma ApplyResetKeepsComplete(log: Log, r: NodeView, d: NodeDelta, senderMax: Version, upto: Version, now: Instant)
    requires FaithfulDelta(log, d, senderMax, upto)
    requires Resets(r, d) && d.fromVersionExcluded == 0
    ensures Complete(log, ApplyDelta(r, d, now))
  {
    var t, start := ApplyDelta(r, d, now), ResetView(d);
    ApplyMutationsProgress(start, start.maxVersion, d.keyValues, now);
    assert t.maxVersion <= upto;
    forall key ensures Current(log, t, key) {
      assert Transmits(log, d, senderMax, upto, key);
      KeyAfterApply(log, start, d, senderMax, upto, now, key);
    }
  }

  // ---------- exactly when an exchange is safe ----------

  /** A receiver with digest (rGc, rMax) and a sender with digest (sGc, sMax) may exchange: whatever faithful
      states have these digests, every delta the sender may emit keeps the receiver faithful. */
  ghost predicate ExchangeSafe(rGc: Version, rMax: Version, sGc: Version, sMax: Version) {
    forall log: Log, r: NodeView, s: NodeView, d: NodeDelta, now: Instant
      {:trigger ExchangeKeepsFaithful(log, r, s, d, now)} ::
      r.lastGcVersion == rGc && r.maxVersion == rMax && s.lastGcVersion == sGc && s.maxVersion == sMax
      ==> ExchangeKeepsFaithful(log, r, s, d, now)
  }

  ghost predicate ExchangeKeepsFaithful(log: Log, r: NodeView, s: NodeView, d: NodeDelta, now: Instant) {
    Faithful(log, r) && Faithful(log, s) && DeltaFrom(s, r.lastGcVersion, r.maxVersion, d)
    ==> Faithful(log, ApplyDelta(r, d, now))
  }

  /** The receiver's maxVersion is not the very version up to which the sender, and not the receiver,
      collected; and the sender has seen at least as far as the receiver collected. */
  predicate SafeDigests(rGc: Version, rMax: Version, sGc: Version, sMax: Version) {
    !(rGc < sGc && rMax == sGc) && rGc <= Max(sMax, sGc)
  }

  /** The invariant survives every exchange between digests exactly when the digests are safe.  (A sender
      that is not ahead, sMax <= rMax, emits nothing.) */
  lemma ExchangeSafeExactly(rGc: Version, rMax: Version, sGc: Version, sMax: Version)
    requires rMax < sMax
    ensures ExchangeSafe(rGc, rMax, sGc, sMax) <==> SafeDigests(rGc, rMax, sGc, sMax)
  {
    if SafeDigests(rGc, rMax, sGc, sMax) {
      forall log: Log, r: NodeView, s: NodeView, d: NodeDelta, now: Instant |
        && r.lastGcVersion == rGc && r.maxVersion == rMax && s.lastGcVersion == sGc && s.maxVersion == sMax
        && Faithful(log, r) && Faithful(log, s) && DeltaFrom(s, rGc, rMax, d)
        ensures ExchangeKeepsFaithful(log, r, s, d, now)
      {
        DeltaFromIsFaithful(log, s, rGc, rMax, d);
        ApplyKeepsFaithful(log, r, d, sMax, CoveredUpTo(s, d), now);
      }
    } else if rGc < sGc && rMax == sGc {
      var log, r, s, d := LossyReset(rGc, rMax, sMax);
      assert !Current(log, ApplyDelta(r, d, 0.0), KEY_A);
      assert !ExchangeKeepsFaithful(log, r, s, d, 0.0);
    } else {
      var log, r, s, d := Resurrection(rGc, rMax, sGc, sMax);
      assert !Current(log, ApplyDelta(r, d, 0.0), KEY_A);
      assert !ExchangeKeepsFaithful(log, r, s, d, 0.0);
    }
  }

  const KEY_A: Text := [97]
  const KEY_B: Text := [98]
  const SOMEONE := ChitchatId([110], 0, SocketAddr(V4([127, 0, 0, 1]), 7280))

  function PlainEntry(v: Version): VersionedValue {
    VersionedValue([], v, DeletionStatus.Set)
  }

  /** A faithful state with at most the keys A and B, given what the log says about these two keys. */
  lemma TwoKeyStateIsFaithful(log: Log, s: NodeView)
    requires forall i | 0 <= i < |log| :: log[i].key == KEY_A || log[i].key == KEY_B
    requires s.maxVersion <= |log| && s.lastGcVersion <= |log|
    requires forall k | k in s.keyValues :: GenuineEntry(log, s, k)
    requires Current(log, s, KEY_A) && Current(log, s, KEY_B)
    ensures Faithful(log, s)
  {
    forall key ensures Current(log, s, key) {
      var v := Latest(log, key);
      if v > 0 {
        assert log[v - 1].key == key;
      }
    }
  }

  lemma ApplyOne(s: NodeView, m: KeyValueMutation, now: Instant)
    ensures ApplyMutations(s, s.maxVersion, [m], now)
            == if Accepts(s.maxVersion, s.lastGcVersion, m) then WithVersionedValue(s, m.key, Received(m, now)) else s
  {
    assert [m][..0] == [];
    assert ApplyMutations(s, s.maxVersion, [], now) == s;
  }

  /** A log in which key A is set once, and key B ever after. */
  function SetOnce(n: nat): Log {
    seq(n, i => Write(if i == 0 then KEY_A else KEY_B, [], MutSet))
  }

  lemma LatestOfSetOnce(n: nat)
    requires n >= 2
    ensures Latest(SetOnce(n), KEY_A) == 1 && Latest(SetOnce(n), KEY_B) == n
  {
    assert SetOnce(n)[0].key == KEY_A && SetOnce(n)[n - 1].key == KEY_B;
  }

  /** A state that has key A and, unless `b` is 0, key B of version b. */
  function Holding(a: Version, b: Version, max: Version, gc: Version): NodeView {
    NodeView(0, if b == 0 then map[KEY_A := PlainEntry(a)] else map[KEY_A := PlainEntry(a), KEY_B := PlainEntry(b)], max, gc)
  }

  lemma HoldingIsFaithful(n: nat, b: Version, max: Version, gc: Version)
    requires 1 <= max <= n && 2 <= n && gc <= n && (if b == 0 then max < n else 2 <= b == max)
    ensures Faithful(SetOnce(n), Holding(1, b, max, gc))
  {
    LatestOfSetOnce(n);
    TwoKeyStateIsFaithful(SetOnce(n), Holding(1, b, max, gc));
  }

  function PlainMutation(key: Text, v: Version): KeyValueMutation {
    KeyValueMutation(key, [], v, MutSet)
  }

  /** What a sender with keys A of version 1 and B of its maxVersion answers from above 0. */
  lemma DeltaWithB(max: Version, gc: Version, from: Version, digestGc: Version)
    requires 1 <= from < max && (gc <= digestGc || gc <= from)
    ensures var d := NodeDelta(SOMEONE, from, gc, [PlainMutation(KEY_B, max)], None);
            DeltaFrom(Holding(1, max, max, gc), digestGc, from, d) && Untruncated(Holding(1, max, max, gc), d)
  {
    StaleKeyValuesIsTheSort(Holding(1, max, max, gc), from, [PlainMutation(KEY_B, max)]);
  }

  /** The receiver starts over, and is left with key B. */
  lemma ResetToB(r: NodeView, d: NodeDelta, max: Version)
    requires Resets(r, d) && d.keyValues == [PlainMutation(KEY_B, max)] && max > 0
    ensures ApplyDelta(r, d, 0.0) == NodeView(0, map[KEY_B := PlainEntry(max)], max, d.lastGcVersion)
  {
    ApplyOne(ResetView(d), d.keyValues[0], 0.0);
  }

  /** A receiver at the sender's lastGcVersion, behind in collection: the delta does not start at 0, yet it
      resets the receiver, which loses key A although A was never deleted. */
  lemma LossyReset(rGc: Version, gc: Version, sMax: Version)
    returns (log: Log, r: NodeView, s: NodeView, d: NodeDelta)
    requires rGc < gc < sMax
    ensures |log| == sMax && Faithful(log, r) && r.lastGcVersion == rGc && r.maxVersion == gc
    ensures Faithful(log, s) && s.lastGcVersion == gc && s.maxVersion == sMax
    ensures DeltaFrom(s, rGc, gc, d) && Untruncated(s, d)
    ensures Latest(log, KEY_A) == 1 && !DeletedAt(log, 1) && KEY_A in s.keyValues
    ensures forall k | k in s.keyValues :: s.keyValues[k].status.Set?
    ensures d.fromVersionExcluded == gc && Resets(r, d)
    ensures var t := ApplyDelta(r, d, 0.0); KEY_A !in t.keyValues && t.maxVersion == sMax
  {
    hide Faithful, DeltaFrom, Untruncated, ApplyDelta;
    log, r, s := SetOnce(sMax), Holding(1, 0, gc, rGc), Holding(1, sMax, sMax, gc);
    d := NodeDelta(SOMEONE, gc, gc, [PlainMutation(KEY_B, sMax)], None);
    LatestOfSetOnce(sMax);
    HoldingIsFaithful(sMax, 0, gc, rGc);
    HoldingIsFaithful(sMax, sMax, sMax, gc);
    DeltaWithB(sMax, gc, gc, rGc);
    ResetToB(r, d, sMax);
  }

  /** A log in which key A is set in version `setAt` and deleted in version `deleted`, the last but one. */
  function SetAndDeleted(setAt: Version, deleted: Version): Log {
    seq(deleted + 1, i => if i == deleted - 1 then Write(KEY_A, [], MutDelete)
                          else Write(if i == setAt - 1 then KEY_A else KEY_B, [], MutSet))
  }

  lemma LatestOfDeleted(setAt: Version, deleted: Version)
    requires 0 < setAt < deleted
    ensures var log := SetAndDeleted(setAt, deleted);
            Latest(log, KEY_A) == deleted && DeletedAt(log, deleted) && Latest(log, KEY_B) == deleted + 1
  {
    var log := SetAndDeleted(setAt, deleted);
    assert log[deleted - 1].key == KEY_A && log[deleted].key == KEY_B;
  }

  /** One who collected the deletion may know nothing at all, and one who has not seen it may hold key A. */
  lemma DeletedIsFaithful(setAt: Version, deleted: Version, max: Version, gc: Version)
    requires 0 < setAt < deleted && max < deleted && gc < deleted
    ensures Faithful(SetAndDeleted(setAt, deleted), NodeView(0, map[], max, deleted))
    ensures max == setAt ==> Faithful(SetAndDeleted(setAt, deleted), Holding(setAt, 0, max, gc))
  {
    LatestOfDeleted(setAt, deleted);
    TwoKeyStateIsFaithful(SetAndDeleted(setAt, deleted), NodeView(0, map[], max, deleted));
    if max == setAt {
      TwoKeyStateIsFaithful(SetAndDeleted(setAt, deleted), Holding(setAt, 0, max, gc));
    }
  }

  /** What a sender that has key A only answers. */
  lemma DeltaWithA(max: Version, gc: Version, from: Version, digestGc: Version)
    requires from < max && (gc <= digestGc || gc <= from)
    ensures DeltaFrom(Holding(max, 0, max, gc), digestGc, from, NodeDelta(SOMEONE, from, gc, [PlainMutation(KEY_A, max)], None))
  {
    StaleKeyValuesIsTheSort(Holding(max, 0, max, gc), from, [PlainMutation(KEY_A, max)]);
  }

  /** The receiver takes key A back. */
  lemma TakesABack(rMax: Version, rGc: Version, from: Version, gc: Version, max: Version)
    requires from <= rMax < max && gc <= rGc
    ensures ApplyDelta(NodeView(0, map[], rMax, rGc), NodeDelta(SOMEONE, from, gc, [PlainMutation(KEY_A, max)], None), 0.0)
            == NodeView(0, map[KEY_A := PlainEntry(max)], max, rGc)
  {
    ApplyOne(NodeView(0, map[], rMax, rGc), PlainMutation(KEY_A, max), 0.0);
  }

  /** A receiver that collected further than the sender has seen: the sender's old value of key A comes
      back after its deletion was collected. */
  lemma Resurrection(rGc: Version, rMax: Version, sGc: Version, sMax: Version)
    returns (log: Log, r: NodeView, s: NodeView, d: NodeDelta)
    requires rMax < sMax < rGc && sGc < rGc
    ensures Faithful(log, r) && r.lastGcVersion == rGc && r.maxVersion == rMax
    ensures Faithful(log, s) && s.lastGcVersion == sGc && s.maxVersion == sMax
    ensures DeltaFrom(s, rGc, rMax, d)
    ensures Latest(log, KEY_A) == rGc && DeletedAt(log, rGc)
    ensures var t := ApplyDelta(r, d, 0.0); KEY_A in t.keyValues && t.maxVersion == sMax && t.lastGcVersion == rGc
  {
    hide Faithful, DeltaFrom, ApplyDelta;
    log, r, s := SetAndDeleted(sMax, rGc), NodeView(0, map[], rMax, rGc), Holding(sMax, 0, sMax, sGc);
    d := NodeDelta(SOMEONE, rMax, sGc, [PlainMutation(KEY_A, sMax)], None);
    LatestOfDeleted(sMax, rGc);
    DeletedIsFaithful(sMax, rGc, rMax, sGc);
    DeletedIsFaithful(sMax, rGc, sMax, sGc);
    DeltaWithA(sMax, sGc, rMax, rGc);
    TakesABack(rMax, rGc, rMax, sGc, sMax);
  }

  // ---------- exactly when a delta is safe to receive, however late ----------

  ghost predicate ReceiptKeepsFaithful(log: Log, r: NodeView, s: NodeView, gc: Version, max: Version, d: NodeDelta, now: Instant) {
    Faithful(log, r) && Faithful(log, s) && DeltaFrom(s, gc, max, d) ==> Faithful(log, ApplyDelta(r, d, now))
  }

  /** A receiver with digest (rGc, rMax) may receive a delta with this start and lastGcVersion from a sender that was
      at senderMax: whatever the log, the entries of receiver and sender, and the digest the sender answered, the
      receiver stays faithful.  A state that once was the sender's stays faithful to the log as it grows. */
  ghost predicate ReceiptSafe(rGc: Version, rMax: Version, from: Version, dGc: Version, senderMax: Version) {
    forall log: Log, r: NodeView, s: NodeView, gc: Version, max: Version, d: NodeDelta, now: Instant
      {:trigger ReceiptKeepsFaithful(log, r, s, gc, max, d, now)} ::
      && r.lastGcVersion == rGc && r.maxVersion == rMax && s.maxVersion == senderMax
      && d.fromVersionExcluded == from && d.lastGcVersion == dGc
      ==> ReceiptKeepsFaithful(log, r, s, gc, max, d, now)
  }

  /** The delta does not reset the receiver from above 0, and brings nothing from a sender that has not seen what the
      receiver collected. */
  predicate SafeHeader(rGc: Version, rMax: Version, from: Version, dGc: Version, senderMax: Version) {
    && !(0 < from <= rMax <= dGc && rGc < dGc && from < senderMax)
    && !(from <= rMax < senderMax && Max(senderMax, dGc) < rGc)
  }

  lemma SafeHeaderSuffices(log: Log, r: NodeView, s: NodeView, gc: Version, max: Version, d: NodeDelta, now: Instant)
    requires SafeHeader(r.lastGcVersion, r.maxVersion, d.fromVersionExcluded, d.lastGcVersion, s.maxVersion)
    requires Faithful(log, r) && Faithful(log, s) && DeltaFrom(s, gc, max, d)
    ensures Faithful(log, ApplyDelta(r, d, now))
  {
    DeltaFromIsFaithful(log, s, gc, max, d);
    ApplyKeepsFaithful(log, r, d, s.maxVersion, CoveredUpTo(s, d), now);
  }

  /** A delta that starts above 0 and resets its receiver, which loses key A although A was never deleted. */
  lemma LateReset(rGc: Version, rMax: Version, from: Version, dGc: Version, senderMax: Version)
    returns (log: Log, r: NodeView, s: NodeView, d: NodeDelta)
    requires 0 < from <= rMax <= dGc && rGc < dGc && from < senderMax
    ensures r.lastGcVersion == rGc && r.maxVersion == rMax && d.fromVersionExcluded == from && d.lastGcVersion == dGc
    ensures Faithful(log, r) && Faithful(log, s) && s.maxVersion == senderMax && DeltaFrom(s, dGc, from, d)
    ensures !DeletedAt(log, Latest(log, KEY_A)) && !Current(log, ApplyDelta(r, d, 0.0), KEY_A)
  {
    hide Faithful, DeltaFrom, ApplyDelta;
    var n := Max(dGc, senderMax) + 1;
    log, r, s := SetOnce(n), Holding(1, 0, rMax, rGc), Holding(1, senderMax, senderMax, dGc);
    d := NodeDelta(SOMEONE, from, dGc, [PlainMutation(KEY_B, senderMax)], None);
    LatestOfSetOnce(n);
    HoldingIsFaithful(n, 0, rMax, rGc);
    HoldingIsFaithful(n, senderMax, senderMax, dGc);
    DeltaWithB(senderMax, dGc, from, dGc);
    ResetToB(r, d, senderMax);
  }

  /** An old value of key A, which the receiver knows nothing of because it collected its deletion. */
  lemma LateResurrection(rGc: Version, rMax: Version, from: Version, dGc: Version, senderMax: Version)
    returns (log: Log, r: NodeView, s: NodeView, d: NodeDelta)
    requires from <= rMax < senderMax && Max(senderMax, dGc) < rGc
    ensures r.lastGcVersion == rGc && r.maxVersion == rMax && d.fromVersionExcluded == from && d.lastGcVersion == dGc
    ensures Faithful(log, r) && Faithful(log, s) && s.maxVersion == senderMax && DeltaFrom(s, dGc, from, d)
    ensures DeletedAt(log, Latest(log, KEY_A)) && !Current(log, ApplyDelta(r, d, 0.0), KEY_A)
  {
    hide Faithful, DeltaFrom, ApplyDelta;
    log, r, s := SetAndDeleted(senderMax, rGc), NodeView(0, map[], rMax, rGc), Holding(senderMax, 0, senderMax, dGc);
    d := NodeDelta(SOMEONE, from, dGc, [PlainMutation(KEY_A, senderMax)], None);
    LatestOfDeleted(senderMax, rGc);
    DeletedIsFaithful(senderMax, rGc, rMax, dGc);
    DeletedIsFaithful(senderMax, rGc, senderMax, dGc);
    DeltaWithA(senderMax, dGc, from, dGc);
    TakesABack(rMax, rGc, from, dGc, senderMax);
  }

  /** Exactly which deltas are safe to receive, whenever and in whatever order they arrive, by the numbers in their
      header, the sender's maxVersion and the receiver's digest. */
  lemma ReceiptSafeExactly(rGc: Version, rMax: Version, from: Version, dGc: Version, senderMax: Version)
    ensures ReceiptSafe(rGc, rMax, from, dGc, senderMax) <==> SafeHeader(rGc, rMax, from, dGc, senderMax)
  {
    if SafeHeader(rGc, rMax, from, dGc, senderMax) {
      forall log: Log, r: NodeView, s: NodeView, gc: Version, max: Version, d: NodeDelta, now: Instant |
        && r.lastGcVersion == rGc && r.maxVersion == rMax && s.maxVersion == senderMax
        && d.fromVersionExcluded == from && d.lastGcVersion == dGc
        && Faithful(log, r) && Faithful(log, s) && DeltaFrom(s, gc, max, d)
        ensures ReceiptKeepsFaithful(log, r, s, gc, max, d, now)
      {
        SafeHeaderSuffices(log, r, s, gc, max, d, now);
      }
    } else if from <= rMax < senderMax && Max(senderMax, dGc) < rGc {
      var log, r, s, d := LateResurrection(rGc, rMax, from, dGc, senderMax);
      assert !ReceiptKeepsFaithful(log, r, s, dGc, from, d, 0.0);
    } else {
      var log, r, s, d := LateReset(rGc, rMax, from, dGc, senderMax);
      assert !ReceiptKeepsFaithful(log, r, s, dGc, from, d, 0.0);
    }
  }

  /** With a delta computed against one of the receiver's own earlier digests (rGc0, rMax0), a reset that
      does not start at 0 happens in a single situation: the receiver still has the maxVersion of that
      digest, and it equals the sender's lastGcVersion. */
  lemma ResetsFromNonZeroExactly(r: NodeView, s: NodeView, d: NodeDelta, rGc0: Version, rMax0: Version)
    requires LexLeq(rGc0, rMax0, r.lastGcVersion, r.maxVersion)
    requires DeltaFrom(s, rGc0, rMax0, d)
    ensures Resets(r, d) && d.fromVersionExcluded != 0 <==>
              r.lastGcVersion < s.lastGcVersion && r.maxVersion == rMax0 == s.lastGcVersion && DeltaMaxVersion(d).Some?
  {
  }

  // ---------- convergence ----------

  /** Two replicas of the same log tell the same about `key`: equal, value and version, unless its latest
      write is a deletion, in which case either may still hold that deletion. */
  ghost predicate Agree(log: Log, o: NodeView, t: NodeView, key: Text) {
    var v := Latest(log, key);
    if v == 0 then key !in o.keyValues && key !in t.keyValues
    else if !DeletedAt(log, v) then
      key in o.keyValues && key in t.keyValues && o.keyValues[key] == t.keyValues[key] && o.keyValues[key].version == v
    else
      && (key in o.keyValues ==> o.keyValues[key].version == v)
      && (key in t.keyValues ==> t.keyValues[key].version == v)
      && (key in o.keyValues && key in t.keyValues ==>
            MutationOf(key, o.keyValues[key]) == MutationOf(key, t.keyValues[key]))
  }

  ghost predicate Converged(log: Log, o: NodeView, t: NodeView) {
    forall key {:trigger Agree(log, o, t, key)} :: Agree(log, o, t, key)
  }

  /** The replica after one exchange with the owner: it asks with its present digest. */
  function AfterExchange(o: NodeView, r: NodeView, d: NodeDelta, now: Instant): NodeView {
    if r.maxVersion < o.maxVersion then ApplyDelta(r, d, now) else r
  }

  /** The state says about `key` what the owner's last word was. */
  ghost predicate Settled(log: Log, s: NodeView, key: Text) {
    var v := Latest(log, key);
    if v == 0 then key !in s.keyValues
    else if DeletedAt(log, v) then key in s.keyValues ==> s.keyValues[key].version == v
    else key in s.keyValues && s.keyValues[key].version == v
  }

  lemma SettledAgree(log: Log, o: NodeView, t: NodeView, key: Text)
    requires Genuine(log, o) && Genuine(log, t) && Settled(log, o, key) && Settled(log, t, key)
    ensures Agree(log, o, t, key)
  {
    HeldIsWritten(log, o, key);
    HeldIsWritten(log, t, key);
  }

  lemma SeenIsSettled(log: Log, s: NodeView, key: Text)
    requires Faithful(log, s) && Latest(log, key) <= s.maxVersion
    ensures Settled(log, s, key)
  {
    assert Current(log, s, key);
    HeldIsWritten(log, s, key);
  }

  lemma InPlaceSettles(log: Log, r: NodeView, d: NodeDelta, senderMax: Version, now: Instant, key: Text)
    requires Faithful(log, r) && VersionsBounded(r) && Applicable(r, d) && r.lastGcVersion <= Max(senderMax, d.lastGcVersion)
    requires FaithfulDelta(log, d, senderMax, senderMax) && Latest(log, key) <= senderMax
    ensures Settled(log, ApplyDelta(r, d, now), key)
  {
    assert Current(log, r, key) && Transmits(log, d, senderMax, senderMax, key);
    HeldIsWritten(log, r, key);
    KeyAfterApply(log, r, d, senderMax, senderMax, now, key);
  }

  lemma ResetSettles(log: Log, r: NodeView, d: NodeDelta, senderMax: Version, now: Instant, key: Text)
    requires Resets(r, d) && d.fromVersionExcluded == 0
    requires FaithfulDelta(log, d, senderMax, senderMax) && Latest(log, key) <= senderMax
    ensures Settled(log, ApplyDelta(r, d, now), key)
  {
    assert Transmits(log, d, senderMax, senderMax, key);
    KeyAfterApply(log, ResetView(d), d, senderMax, senderMax, now, key);
  }

  /** The replica asks a peer, any peer, with its present digest, which is safe; nothing is cut. */
  ghost predicate WholeExchange(s: NodeView, r: NodeView, d: NodeDelta) {
    r.maxVersion < s.maxVersion ==>
      && DeltaFrom(s, r.lastGcVersion, r.maxVersion, d) && Untruncated(s, d)
      && SafeDigests(r.lastGcVersion, r.maxVersion, s.lastGcVersion, s.maxVersion)
  }

  /** One untruncated exchange with any peer tells the replica the last word on every key that the peer has seen the
      last word on. */
  lemma ExchangeSettles(log: Log, s: NodeView, r: NodeView, d: NodeDelta, now: Instant)
    requires Faithful(log, s) && Faithful(log, r) && WholeExchange(s, r, d)
    ensures Faithful(log, AfterExchange(s, r, d, now))
    ensures forall key | Latest(log, key) <= s.maxVersion :: Settled(log, AfterExchange(s, r, d, now), key)
  {
    hide Faithful, Settled, Latest;
    var t := AfterExchange(s, r, d, now);
    GenuineVersionsDistinct(log, r) by {
      IsGenuine(log, r);
    }
    if r.maxVersion < s.maxVersion {
      DeltaFromIsFaithful(log, s, r.lastGcVersion, r.maxVersion, d);
      ApplyKeepsFaithful(log, r, d, s.maxVersion, s.maxVersion, now);
    }
    forall key | Latest(log, key) <= s.maxVersion ensures Settled(log, t, key) {
      if r.maxVersion >= s.maxVersion {
        SeenIsSettled(log, r, key);
      } else if Applicable(r, d) {
        InPlaceSettles(log, r, d, s.maxVersion, now, key);
      } else {
        ResetSettles(log, r, d, s.maxVersion, now, key);
      }
    }
  }

  lemma IsGenuine(log: Log, s: NodeView)
    requires Faithful(log, s)
    ensures Genuine(log, s)
  {
  }

  /** One untruncated exchange with the owner makes a faithful replica agree with it on every key, unless
      the replica stands exactly at the owner's lastGcVersion without having collected as far. */
  lemma OneExchangeConverges(log: Log, o: NodeView, r: NodeView, d: NodeDelta, now: Instant)
    requires Faithful(log, o) && o.maxVersion == |log|
    requires Faithful(log, r)
    requires r.maxVersion < o.maxVersion ==>
               DeltaFrom(o, r.lastGcVersion, r.maxVersion, d) && Untruncated(o, d)
    requires !(r.lastGcVersion < o.lastGcVersion && r.maxVersion == o.lastGcVersion)
    ensures Converged(log, o, AfterExchange(o, r, d, now))
  {
    var t := AfterExchange(o, r, d, now);
    ExchangeSettles(log, o, r, d, now);
    forall key ensures Agree(log, o, t, key) {
      SeenIsSettled(log, o, key);
      SettledAgree(log, o, t, key);
    }
  }

  // ---------- from peer to peer ----------

  /** Version v is the last word on its key, and that is no deletion. */
  predicate LiveWrite(log: Log, v: Version) {
    0 < v <= |log| && !DeletedAt(log, v) && forall i | v <= i < |log| :: log[i].key != log[v - 1].key
  }

  /** A chain of exchanges: each replica asks the one before it, after that has asked the one before. */
  ghost predicate Chain(ss: seq<NodeView>, rs: seq<NodeView>, ds: seq<NodeDelta>, nows: seq<Instant>) {
    && |ss| == |rs| + 1 == |ds| + 1 == |nows| + 1
    && forall i | 0 <= i < |rs| :: WholeExchange(ss[i], rs[i], ds[i]) && ss[i + 1] == AfterExchange(ss[i], rs[i], ds[i], nows[i])
  }

  /** A live write reaches the end of every chain that starts with a replica that has seen it, and with it the last
      word on every key written last no later: all along the chain the replicas agree with the first on these. */
  lemma {:induction false} ChainsAgree(log: Log, ss: seq<NodeView>, rs: seq<NodeView>, ds: seq<NodeDelta>, nows: seq<Instant>,
                                       v: Version, n: nat)
    requires Chain(ss, rs, ds, nows) && n < |ss|
    requires Faithful(log, ss[0]) && forall i | 0 <= i < |rs| :: Faithful(log, rs[i])
    requires LiveWrite(log, v) && v <= ss[0].maxVersion
    ensures Faithful(log, ss[n]) && v <= ss[n].maxVersion
    ensures forall key | Latest(log, key) <= v :: Agree(log, ss[0], ss[n], key)
  {
    hide Faithful, Latest, Agree, Settled, AfterExchange, WholeExchange;
    if n > 0 {
      ChainsAgree(log, ss, rs, ds, nows, v, n - 1);
      ExchangeSettles(log, ss[n - 1], rs[n - 1], ds[n - 1], nows[n - 1]);
      LatestOfLive(log, v);
      LiveIsHeld(log, ss[n], v);
    }
    forall key | Latest(log, key) <= v ensures Agree(log, ss[0], ss[n], key) {
      SeenIsSettled(log, ss[0], key);
      SeenIsSettled(log, ss[n], key);
      IsGenuine(log, ss[0]);
      IsGenuine(log, ss[n]);
      SettledAgree(log, ss[0], ss[n], key);
    }
  }

  lemma LatestOfLive(log: Log, v: Version)
    requires LiveWrite(log, v)
    ensures Latest(log, log[v - 1].key) == v
  {
  }

  lemma LiveIsHeld(log: Log, s: NodeView, v: Version)
    requires Faithful(log, s) && LiveWrite(log, v) && Settled(log, s, log[v - 1].key)
    ensures v <= s.maxVersion
  {
    LatestOfLive(log, v);
    assert GenuineEntry(log, s, log[v - 1].key);
  }

  /** If the owner's last write is no deletion, everyone at the end of a chain from the owner agrees with it on
      everything. */
  lemma ChainsConverge(log: Log, ss: seq<NodeView>, rs: seq<NodeView>, ds: seq<NodeDelta>, nows: seq<Instant>)
    requires Chain(ss, rs, ds, nows)
    requires Faithful(log, ss[0]) && ss[0].maxVersion == |log| && forall i | 0 <= i < |rs| :: Faithful(log, rs[i])
    requires LiveWrite(log, |log|)
    ensures Converged(log, ss[0], ss[|rs|])
  {
    hide Agree, Faithful;
    ChainsAgree(log, ss, rs, ds, nows, |log|, |rs|);
  }

  lemma HeldIsWritten(log: Log, s: NodeView, key: Text)
    requires Genuine(log, s)
    ensures key in s.keyValues ==>
              var vv := s.keyValues[key];
              1 <= vv.version <= Latest(log, key)
              && log[vv.version - 1] == Write(key, vv.value, vv.status.Mutation())
  {
    if key in s.keyValues {
      assert GenuineEntry(log, s, key);
    }
  }

  ghost predicate ConvergenceGuaranteed(rGc: Version, rMax: Version, oGc: Version, oMax: Version) {
    forall log: Log, o: NodeView, r: NodeView, d: NodeDelta, now: Instant
      {:trigger ExchangeConverges(log, o, r, d, now)} ::
      o.maxVersion == oMax && o.lastGcVersion == oGc && r.maxVersion == rMax && r.lastGcVersion == rGc
      ==> ExchangeConverges(log, o, r, d, now)
  }

  ghost predicate ExchangeConverges(log: Log, o: NodeView, r: NodeView, d: NodeDelta, now: Instant) {
    && Faithful(log, o) && o.maxVersion == |log| && Faithful(log, r)
    && DeltaFrom(o, r.lastGcVersion, r.maxVersion, d) && Untruncated(o, d)
    ==> Converged(log, o, ApplyDelta(r, d, now))
  }

  /** For which digests one untruncated exchange with the owner is certain to converge. */
  lemma ConvergenceExactly(rGc: Version, rMax: Version, oGc: Version, oMax: Version)
    requires rMax < oMax
    ensures ConvergenceGuaranteed(rGc, rMax, oGc, oMax) <==> !(rGc < oGc && rMax == oGc)
  {
    if rGc < oGc && rMax == oGc {
      var log, r, o, d := LossyReset(rGc, rMax, oMax);
      assert !Agree(log, o, ApplyDelta(r, d, 0.0), KEY_A);
      assert !ExchangeConverges(log, o, r, d, 0.0);
    } else {
      forall log: Log, o: NodeView, r: NodeView, d: NodeDelta, now: Instant |
        && o.maxVersion == oMax == |log| && o.lastGcVersion == oGc && r.maxVersion == rMax && r.lastGcVersion == rGc
        && Faithful(log, o) && Faithful(log, r) && DeltaFrom(o, rGc, rMax, d) && Untruncated(o, d)
        ensures ExchangeConverges(log, o, r, d, now)
      {
        OneExchangeConverges(log, o, r, d, now);
      }
    }
  }
}
