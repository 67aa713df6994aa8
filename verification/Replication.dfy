/** Scuttlebutt replication of one node's entries.  The owner's writes form a log in which write
    number v has version v; replicas and deltas are judged against that log. */
module Replication {
  import opened Types
  import opened NodeStates

  // ---------- the owner's log ----------

  datatype Write = Write(key: Text, value: Text, status: DeletionStatusMutation)

  type Log = seq<Write>

  /** The version of the last write to `key`, or 0 when there is none. */
  ghost function Latest(log: Log, key: Text): (v: Version)
    ensures v <= |log|
    ensures v > 0 ==> log[v - 1].key == key
    ensures forall i | v <= i < |log| :: log[i].key != key
  {
    if log == [] then 0
    else if log[|log| - 1].key == key then |log|
    else Latest(log[..|log| - 1], key)
  }

  lemma LatestAfterWrite(log: Log, w: Write, key: Text)
    ensures Latest(log + [w], key) == if w.key == key then |log| + 1 else Latest(log, key)
  {
    assert (log + [w])[..|log|] == log;
  }

  /** The log once the owner has executed `op` in state `s`. */
  ghost function LogAfter(log: Log, s: NodeView, op: OwnerOp): Log {
    if TakesEffect(s, op) then log + [Write(op.key, StoredBy(s, op).0, StoredBy(s, op).1)] else log
  }

  predicate IsWrite(log: Log, key: Text, value: Text, version: Version, status: DeletionStatusMutation) {
    1 <= version <= |log| && log[version - 1] == Write(key, value, status)
  }

  predicate DeletedAt(log: Log, v: Version) {
    1 <= v <= |log| && log[v - 1].status.ScheduledForDeletion()
  }

  // ---------- what a replica knows ----------

  /** Every entry is the owner's write of that version, and the counters stay within the log. */
  ghost predicate Genuine(log: Log, s: NodeView) {
    && s.maxVersion <= |log|
    && s.lastGcVersion <= |log|
    && forall k | k in s.keyValues :: GenuineEntry(log, s, k)
  }

  ghost predicate GenuineEntry(log: Log, s: NodeView, k: Text)
    requires k in s.keyValues
  {
    var vv := s.keyValues[k];
    vv.version <= s.maxVersion && IsWrite(log, k, vv.value, vv.version, vv.status.Mutation())
  }

  /** The replica is up to date on `key` as far as its counters claim: a latest write at or below
      maxVersion is held, unless it is a deletion that was collected; and a latest deletion between
      maxVersion and lastGcVersion left nothing behind. */
  ghost predicate Current(log: Log, s: NodeView, key: Text) {
    var v := Latest(log, key);
    && (0 < v <= s.maxVersion ==>
          || (key in s.keyValues && s.keyValues[key].version == v)
          || (DeletedAt(log, v) && v <= s.lastGcVersion && key !in s.keyValues))
    && (s.maxVersion < v <= s.lastGcVersion && DeletedAt(log, v) ==> key !in s.keyValues)
  }

  ghost predicate Complete(log: Log, s: NodeView) {
    forall key {:trigger Current(log, s, key)} :: Current(log, s, key)
  }

  /** The scuttlebutt invariant of a replica. */
  ghost predicate Faithful(log: Log, s: NodeView) {
    Genuine(log, s) && Complete(log, s)
  }

  lemma GenuineVersionsDistinct(log: Log, s: NodeView)
    requires Genuine(log, s)
    ensures VersionsBounded(s) && VersionsDistinct(s)
  {
    forall j, k | j in s.keyValues && k in s.keyValues && s.keyValues[j].version == s.keyValues[k].version
      ensures j == k
    {
      assert GenuineEntry(log, s, j) && GenuineEntry(log, s, k);
    }
    forall k | k in s.keyValues ensures 1 <= s.keyValues[k].version <= s.maxVersion {
      assert GenuineEntry(log, s, k);
    }
  }

  // ---------- the owner, other replicas and collection ----------

  /** A write extends the log by one; it keeps the owner faithful and level with the log. */
  lemma OwnerWriteKeepsFaithful(log: Log, s: NodeView, op: OwnerOp, now: Instant)
    requires Faithful(log, s) && s.maxVersion == |log|
    ensures var log', t := LogAfter(log, s, op), OwnerWrite(s, op, now);
            Faithful(log', t) && t.maxVersion == |log'| && t.lastGcVersion == s.lastGcVersion
  {
    var log', t := LogAfter(log, s, op), OwnerWrite(s, op, now);
    OwnerWriteKeepsGenuine(log, s, op, now);
    hide Current, Genuine, LogAfter, OwnerWrite;
    forall key ensures Current(log', t, key) {
      OwnerWriteKeepsCurrent(log, s, op, now, key);
    }
  }

  lemma OwnerWriteKeepsCurrent(log: Log, s: NodeView, op: OwnerOp, now: Instant, key: Text)
    requires Faithful(log, s) && s.maxVersion == |log|
    ensures Current(LogAfter(log, s, op), OwnerWrite(s, op, now), key)
  {
    assert Current(log, s, key);
    if TakesEffect(s, op) {
      var log' := LogAfter(log, s, op);
      LatestAfterWrite(log, log'[|log|], key);
      NewEntry(log, s, op, now);
      hide OwnerWrite, StoredBy, TakesEffect, Latest;
    }
  }

  /** A write that takes effect sets one key, to the next version. */
  lemma NewEntry(log: Log, s: NodeView, op: OwnerOp, now: Instant)
    requires Genuine(log, s) && s.maxVersion == |log| && TakesEffect(s, op)
    ensures var t := OwnerWrite(s, op, now);
            && op.key in t.keyValues && t.keyValues[op.key].version == |log| + 1
            && t == s.(maxVersion := |log| + 1, keyValues := s.keyValues[op.key := t.keyValues[op.key]])
  {
    assert op.key in s.keyValues ==> GenuineEntry(log, s, op.key);
  }

  lemma OwnerWriteKeepsGenuine(log: Log, s: NodeView, op: OwnerOp, now: Instant)
    requires Genuine(log, s) && s.maxVersion == |log|
    ensures var log', t := LogAfter(log, s, op), OwnerWrite(s, op, now);
            Genuine(log', t) && t.maxVersion == |log'| && t.lastGcVersion == s.lastGcVersion
  {
    var log', t := LogAfter(log, s, op), OwnerWrite(s, op, now);
    GenuineVersionsDistinct(log, s);
    forall k | k in t.keyValues ensures GenuineEntry(log', t, k) {
      if k in s.keyValues {
        assert GenuineEntry(log, s, k);
      }
    }
  }

  /** The owner's next write leaves every other replica as faithful as it was. */
  lemma LogGrowthKeepsFaithful(log: Log, w: Write, s: NodeView)
    requires Genuine(log, s)
    ensures Genuine(log + [w], s)
    ensures Complete(log, s) ==> Complete(log + [w], s)
  {
    forall k | k in s.keyValues ensures GenuineEntry(log + [w], s, k) {
      assert GenuineEntry(log, s, k);
    }
    if Complete(log, s) {
      forall key ensures Current(log + [w], s, key) {
        assert Current(log, s, key);
        LatestAfterWrite(log, w, key);
      }
    }
  }

  lemma CollectKeepsFaithful(log: Log, s: NodeView, now: Instant, grace: Instant)
    requires Genuine(log, s)
    ensures var t := Collect(s, now, grace);
            && Genuine(log, t)
            && (Complete(log, s) ==> Complete(log, t))
            && t.maxVersion == s.maxVersion
            && s.lastGcVersion <= t.lastGcVersion
            && (t.lastGcVersion == s.lastGcVersion || t.lastGcVersion <= s.maxVersion)
  {
    var t := Collect(s, now, grace);
    var expired := ExpiredVersions(s.keyValues, now, grace);
    forall v | v in expired ensures v <= s.maxVersion {
      var k :| k in s.keyValues && Expired(s.keyValues[k], now, grace) && s.keyValues[k].version == v;
      assert GenuineEntry(log, s, k);
    }
    forall k | k in t.keyValues ensures GenuineEntry(log, t, k) {
      assert GenuineEntry(log, s, k);
    }
    if Complete(log, s) {
      forall key ensures Current(log, t, key) {
        assert Current(log, s, key);
        if key in s.keyValues && key !in t.keyValues {
          assert GenuineEntry(log, s, key);
          assert s.keyValues[key].version in expired;
        }
      }
    }
  }

  // ---------- computing a delta ----------

  function MutationOf(key: Text, vv: VersionedValue): KeyValueMutation {
    KeyValueMutation(key, vv.value, vv.version, vv.status.Mutation())
  }

  ghost predicate HasVersion(kvs: map<Text, VersionedValue>, v: Version) {
    exists k :: k in kvs && kvs[k].version == v
  }

  ghost function KeyAt(kvs: map<Text, VersionedValue>, v: Version): (k: Text)
    requires HasVersion(kvs, v)
    ensures k in kvs && kvs[k].version == v
  {
    var k :| k in kvs && kvs[k].version == v;
    k
  }

  /** The entries with a version in (from, upto], by increasing version. */
  ghost function Slice(kvs: map<Text, VersionedValue>, from: Version, upto: Version): seq<KeyValueMutation> {
    if upto <= from then []
    else
      Slice(kvs, from, upto - 1)
      + if HasVersion(kvs, upto) then [MutationOf(KeyAt(kvs, upto), kvs[KeyAt(kvs, upto)])] else []
  }

  /** The entries newer than `floor`, by increasing version. */
  ghost function StaleKeyValues(s: NodeView, floor: Version): seq<KeyValueMutation> {
    Slice(s.keyValues, floor, s.maxVersion)
  }

  lemma {:induction false} SliceElements(kvs: map<Text, VersionedValue>, from: Version, upto: Version)
    ensures var ms := Slice(kvs, from, upto);
            && StrictlyIncreasing(ms)
            && forall m | m in ms :: m.key in kvs && m == MutationOf(m.key, kvs[m.key]) && from < m.version <= upto
  {
    if from < upto {
      SliceElements(kvs, from, upto - 1);
    }
  }

  lemma {:induction false} SliceContains(kvs: map<Text, VersionedValue>, from: Version, upto: Version, k: Text)
    requires forall j | j in kvs && k in kvs && kvs[j].version == kvs[k].version :: j == k
    requires k in kvs && from < kvs[k].version <= upto
    ensures MutationOf(k, kvs[k]) in Slice(kvs, from, upto)
  {
    if kvs[k].version == upto {
      assert HasVersion(kvs, upto);
      assert KeyAt(kvs, upto) == k;
    } else {
      SliceContains(kvs, from, upto - 1, k);
    }
  }

  /** `StaleKeyValues` is the sort by version of the newer entries: any strictly increasing
      arrangement of exactly those entries is it. */
  lemma StaleKeyValuesIsTheSort(s: NodeView, floor: Version, ms: seq<KeyValueMutation>)
    requires VersionsBounded(s) && VersionsDistinct(s)
    requires StrictlyIncreasing(ms)
    requires forall m :: m in ms <==> m.key in s.keyValues && m == MutationOf(m.key, s.keyValues[m.key]) && m.version > floor
    ensures ms == StaleKeyValues(s, floor)
  {
    var stale := StaleKeyValues(s, floor);
    SliceElements(s.keyValues, floor, s.maxVersion);
    forall m ensures m in ms <==> m in stale {
      if m in ms {
        SliceContains(s.keyValues, floor, s.maxVersion, m.key);
      }
    }
    SortIsUnique(ms, stale);
  }

  lemma {:induction false} SortIsUnique(a: seq<KeyValueMutation>, b: seq<KeyValueMutation>)
    requires StrictlyIncreasing(a) && StrictlyIncreasing(b)
    requires forall m :: m in a <==> m in b
    ensures a == b
  {
    if a == [] {
      assert forall i | 0 <= i < |b| :: b[i] in a;
    } else {
      assert a[|a| - 1] in b;
      var x, y := a[|a| - 1], b[|b| - 1];
      assert y in a;
      assert x == y;
      var a', b' := a[..|a| - 1], b[..|b| - 1];
      forall m ensures m in a' <==> m in b' {
        assert m in a' <==> m in a && m != x;
        assert m in b' <==> m in b && m != y;
      }
      SortIsUnique(a', b');
    }
  }

  /** The sender's choice of the version to start from, given the receiver's digest. */
  function FromVersion(senderGc: Version, digestGc: Version, digestMax: Version): Version {
    if digestGc < senderGc && digestMax < senderGc then 0 else digestMax
  }

  /** `d` is a delta that a sender in state `s` may emit against a digest: the stale entries by version,
      cut short anywhere, and a maxVersion only when there is no stale entry at all. */
  ghost predicate DeltaFrom(s: NodeView, digestGc: Version, digestMax: Version, d: NodeDelta) {
    var from := FromVersion(s.lastGcVersion, digestGc, digestMax);
    && s.maxVersion > digestMax
    && d.fromVersionExcluded == from
    && d.lastGcVersion == s.lastGcVersion
    && d.keyValues <= StaleKeyValues(s, from)
    && (d.maxVersion == None || (StaleKeyValues(s, from) == [] && d.maxVersion == Some(s.maxVersion)))
  }

  /** Nothing was cut. */
  ghost predicate Untruncated(s: NodeView, d: NodeDelta) {
    && d.keyValues == StaleKeyValues(s, d.fromVersionExcluded)
    && (d.keyValues == [] ==> d.maxVersion == Some(s.maxVersion))
  }

  /** The version up to which `d` carries all that its sender had. */
  ghost function CoveredUpTo(s: NodeView, d: NodeDelta): Version {
    if d.keyValues == StaleKeyValues(s, d.fromVersionExcluded) then s.maxVersion
    else if d.keyValues == [] then d.fromVersionExcluded
    else d.keyValues[|d.keyValues| - 1].version
  }

  predicate Mentions(d: NodeDelta, key: Text) {
    exists i :: 0 <= i < |d.keyValues| && d.keyValues[i].key == key
  }

  predicate Carries(d: NodeDelta, key: Text, v: Version) {
    exists i :: 0 <= i < |d.keyValues| && d.keyValues[i].key == key && d.keyValues[i].version == v
  }

  ghost predicate GenuineDelta(log: Log, d: NodeDelta) {
    && d.lastGcVersion <= |log|
    && StrictlyIncreasing(d.keyValues)
    && (forall m | m in d.keyValues :: d.fromVersionExcluded < m.version && IsWrite(log, m.key, m.value, m.version, m.status))
    && (d.maxVersion.Some? ==> d.maxVersion.value <= |log|)
  }

  /** What a delta is worth to any receiver, at any later time: `senderMax` is its sender's maxVersion and
      `upto` the version it covers. */
  ghost predicate FaithfulDelta(log: Log, d: NodeDelta, senderMax: Version, upto: Version) {
    && GenuineDelta(log, d)
    && upto <= senderMax <= |log|
    && (forall i, j | 0 <= i < j < |d.keyValues| :: d.keyValues[i].key != d.keyValues[j].key)
    && (forall m | m in d.keyValues :: m.version <= upto)
    && (d.maxVersion.Some? ==> d.keyValues == [] && d.maxVersion.value == upto)
    && (forall key {:trigger Transmits(log, d, senderMax, upto, key)} :: Transmits(log, d, senderMax, upto, key))
  }

  ghost predicate Transmits(log: Log, d: NodeDelta, senderMax: Version, upto: Version, key: Text) {
    var v := Latest(log, key);
    && (d.fromVersionExcluded < v <= upto ==>
          Carries(d, key, v) || (DeletedAt(log, v) && v <= d.lastGcVersion && !Mentions(d, key)))
    && (Mentions(d, key) && !Carries(d, key, v) ==> v > senderMax && (v > d.lastGcVersion || !DeletedAt(log, v)))
  }

  lemma DeltaFromIsGenuine(log: Log, s: NodeView, digestGc: Version, digestMax: Version, d: NodeDelta)
    requires Genuine(log, s) && DeltaFrom(s, digestGc, digestMax, d)
    ensures GenuineDelta(log, d)
  {
    SliceElements(s.keyValues, d.fromVersionExcluded, s.maxVersion);
    var stale := StaleKeyValues(s, d.fromVersionExcluded);
    forall m | m in d.keyValues
      ensures d.fromVersionExcluded < m.version && IsWrite(log, m.key, m.value, m.version, m.status)
    {
      assert m in stale;
      assert GenuineEntry(log, s, m.key);
    }
  }

  /** Every entry of the sender in (from, upto] is in the delta; what the delta mentions the sender holds. */
  lemma DeltaFromEntries(s: NodeView, digestGc: Version, digestMax: Version, d: NodeDelta, key: Text)
    requires VersionsBounded(s) && VersionsDistinct(s) && DeltaFrom(s, digestGc, digestMax, d)
    ensures key in s.keyValues && d.fromVersionExcluded < s.keyValues[key].version <= CoveredUpTo(s, d) ==>
              Carries(d, key, s.keyValues[key].version)
    ensures Mentions(d, key) ==> key in s.keyValues && Carries(d, key, s.keyValues[key].version)
  {
    var from := d.fromVersionExcluded;
    var stale := StaleKeyValues(s, from);
    SliceElements(s.keyValues, from, s.maxVersion);
    if key in s.keyValues && from < s.keyValues[key].version <= CoveredUpTo(s, d) {
      SliceContains(s.keyValues, from, s.maxVersion, key);
      var i :| 0 <= i < |stale| && stale[i] == MutationOf(key, s.keyValues[key]);
      assert i < |d.keyValues| && d.keyValues[i] == stale[i];
    }
    if Mentions(d, key) {
      var i :| 0 <= i < |d.keyValues| && d.keyValues[i].key == key;
      assert d.keyValues[i] in stale;
    }
  }

  /** A delta computed by a faithful sender is a faithful delta. */
  lemma DeltaFromIsFaithful(log: Log, s: NodeView, digestGc: Version, digestMax: Version, d: NodeDelta)
    requires Faithful(log, s) && DeltaFrom(s, digestGc, digestMax, d)
    ensures FaithfulDelta(log, d, s.maxVersion, CoveredUpTo(s, d))
  {
    DeltaFromIsGenuine(log, s, digestGc, digestMax, d);
    GenuineVersionsDistinct(log, s);
    DeltaFromShape(s, digestGc, digestMax, d);
    forall key ensures Transmits(log, d, s.maxVersion, CoveredUpTo(s, d), key) {
      assert Current(log, s, key);
      DeltaFromEntries(s, digestGc, digestMax, d, key);
      if key in s.keyValues {
        assert GenuineEntry(log, s, key);
      }
    }
  }

  lemma DeltaFromShape(s: NodeView, digestGc: Version, digestMax: Version, d: NodeDelta)
    requires VersionsBounded(s) && VersionsDistinct(s) && DeltaFrom(s, digestGc, digestMax, d)
    ensures CoveredUpTo(s, d) <= s.maxVersion
    ensures forall i, j | 0 <= i < j < |d.keyValues| :: d.keyValues[i].key != d.keyValues[j].key
    ensures forall m | m in d.keyValues :: m.version <= CoveredUpTo(s, d)
    ensures d.maxVersion.Some? ==> d.keyValues == [] && d.maxVersion.value == CoveredUpTo(s, d)
  {
    var stale := StaleKeyValues(s, d.fromVersionExcluded);
    SliceElements(s.keyValues, d.fromVersionExcluded, s.maxVersion);
    forall i | 0 <= i < |d.keyValues| ensures d.keyValues[i] in stale && d.keyValues[i] == stale[i] {
    }
  }

  lemma LogGrowthKeepsDelta(log: Log, w: Write, d: NodeDelta, senderMax: Version, upto: Version)
    requires GenuineDelta(log, d)
    ensures GenuineDelta(log + [w], d)
    ensures FaithfulDelta(log, d, senderMax, upto) ==> FaithfulDelta(log + [w], d, senderMax, upto)
  {
    if FaithfulDelta(log, d, senderMax, upto) {
      forall key ensures Transmits(log + [w], d, senderMax, upto, key) {
        assert Transmits(log, d, senderMax, upto, key);
        LatestAfterWrite(log, w, key);
      }
    }
  }
}
