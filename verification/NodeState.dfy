/** The state one process keeps about one node: the entries, their versions, and the two counters
    `maxVersion` and `lastGcVersion` that make up its digest.  `NodeView` is the abstract value of
    the class `NodeState`; every method of the class is specified by a function on views. */
module NodeStates {
  import opened Types

  datatype NodeView = NodeView(
    heartbeat: nat,
    keyValues: map<Text, VersionedValue>,
    maxVersion: Version,
    lastGcVersion: Version)

  const EMPTY_VIEW := NodeView(0, map[], 0, 0)

  // ---------- local operations ----------

  function WithVersionedValue(s: NodeView, key: Text, update: VersionedValue): NodeView {
    var s1 := s.(maxVersion := Max(update.version, s.maxVersion));
    if key in s.keyValues && s.keyValues[key].version >= update.version then s1
    else s1.(keyValues := s.keyValues[key := update])
  }

  /** A write by the node that owns the state. */
  datatype OwnerOp =
    | OpSet(key: Text, value: Text)
    | OpSetWithTtl(key: Text, value: Text)
    | OpDelete(key: Text)
    | OpDeleteAfterTtl(key: Text)

  /** True when `op` changes the state; the other calls return early. */
  predicate TakesEffect(s: NodeView, op: OwnerOp) {
    match op
    case OpSet(k, v) =>
      !(k in s.keyValues && s.keyValues[k].value == v && s.keyValues[k].status.Set?)
    case OpSetWithTtl(k, v) =>
      !(k in s.keyValues && s.keyValues[k].value == v && s.keyValues[k].status.DeleteAfterTtl?)
    case OpDelete(k) => k in s.keyValues
    case OpDeleteAfterTtl(k) => k in s.keyValues
  }

  /** The value and status that an effective `op` stores under `op.key`. */
  function StoredBy(s: NodeView, op: OwnerOp): (Text, DeletionStatusMutation)
    requires TakesEffect(s, op)
  {
    match op
    case OpSet(_, v) => (v, MutSet)
    case OpSetWithTtl(_, v) => (v, MutDeleteAfterTtl)
    case OpDelete(_) => ([], MutDelete)
    case OpDeleteAfterTtl(k) => (s.keyValues[k].value, MutDeleteAfterTtl)
  }

  function OwnerWrite(s: NodeView, op: OwnerOp, now: Instant): NodeView {
    if !TakesEffect(s, op) then s
    else
      var (value, status) := StoredBy(s, op);
      var v := s.maxVersion + 1;
      var update := VersionedValue(value, v, status.IntoStatus(now));
      if op.OpSet? || op.OpSetWithTtl? then WithVersionedValue(s, op.key, update)
      else s.(maxVersion := v, keyValues := s.keyValues[op.key := update])
  }

  /** `try_set_heartbeat`: the first heartbeat heard of a node is kept but is not news. */
  function WithHeartbeat(s: NodeView, heartbeat: nat): (NodeView, bool) {
    if s.heartbeat == 0 then (s.(heartbeat := heartbeat), false)
    else if heartbeat > s.heartbeat then (s.(heartbeat := heartbeat), true)
    else (s, false)
  }

  // ---------- garbage collection of tombstones ----------

  predicate Expired(vv: VersionedValue, now: Instant, grace: Instant) {
    vv.status.ScheduledForDeletion() && now >= vv.status.since + grace
  }

  ghost function MaxVersionOf(versions: set<Version>, floor: Version): (m: Version)
    ensures floor <= m
    ensures forall v | v in versions :: v <= m
    ensures m == floor || m in versions
  {
    if versions == {} then floor
    else
      var v :| v in versions;
      assert versions == (versions - {v}) + {v};
      Max(v, MaxVersionOf(versions - {v}, floor))
  }

  ghost function ExpiredVersions(kvs: map<Text, VersionedValue>, now: Instant, grace: Instant): set<Version> {
    set k | k in kvs && Expired(kvs[k], now, grace) :: kvs[k].version
  }

  ghost function Collect(s: NodeView, now: Instant, grace: Instant): NodeView {
    s.(keyValues := map k | k in s.keyValues && !Expired(s.keyValues[k], now, grace) :: s.keyValues[k],
       lastGcVersion := MaxVersionOf(ExpiredVersions(s.keyValues, now, grace), s.lastGcVersion))
  }

  // ---------- applying a delta ----------

  function MaxMutationVersion(ms: seq<KeyValueMutation>): Version
    requires ms != []
  {
    if |ms| == 1 then ms[0].version
    else Max(ms[|ms| - 1].version, MaxMutationVersion(ms[..|ms| - 1]))
  }

  /** The version a delta brings its receiver to, if it says so at all. */
  function DeltaMaxVersion(d: NodeDelta): Option<Version> {
    if d.keyValues == [] then d.maxVersion else Some(MaxMutationVersion(d.keyValues))
  }

  /** The delta asks the receiver to start over: collected tombstones may be missing from it. */
  predicate OutOfSync(s: NodeView, d: NodeDelta) {
    && d.fromVersionExcluded <= s.maxVersion
    && s.maxVersion <= d.lastGcVersion
    && s.lastGcVersion < d.lastGcVersion
  }

  /** The delta is applied on top of the present entries. */
  predicate Applicable(s: NodeView, d: NodeDelta) {
    && d.fromVersionExcluded <= s.maxVersion
    && (s.maxVersion > d.lastGcVersion || s.lastGcVersion >= d.lastGcVersion)
  }

  predicate Resets(s: NodeView, d: NodeDelta) {
    OutOfSync(s, d) && DeltaMaxVersion(d).Some?
  }

  function ResetView(d: NodeDelta): NodeView {
    NodeView(0, map[],
             if d.maxVersion.Some? && d.keyValues == [] then d.maxVersion.value else 0,
             d.lastGcVersion)
  }

  /** A mutation the receiver takes: newer than what it had, and not a tombstone it collected. */
  predicate Accepts(current: Version, gc: Version, m: KeyValueMutation) {
    m.version > current && !(m.status.ScheduledForDeletion() && m.version <= gc)
  }

  function Received(m: KeyValueMutation, now: Instant): VersionedValue {
    VersionedValue(m.value, m.version, m.status.IntoStatus(now))
  }

  function ApplyMutations(s: NodeView, current: Version, ms: seq<KeyValueMutation>, now: Instant): NodeView {
    if ms == [] then s
    else
      var before := ApplyMutations(s, current, ms[..|ms| - 1], now);
      var m := ms[|ms| - 1];
      if Accepts(current, before.lastGcVersion, m) then WithVersionedValue(before, m.key, Received(m, now))
      else before
  }

  function ApplyDelta(s: NodeView, d: NodeDelta, now: Instant): NodeView {
    if Applicable(s, d) then ApplyMutations(s, s.maxVersion, d.keyValues, now)
    else if Resets(s, d) then ApplyMutations(ResetView(d), ResetView(d).maxVersion, d.keyValues, now)
    else s
  }

  /** The lexicographic order in which every receiver moves forward. */
  predicate LexLeq(g0: Version, m0: Version, g1: Version, m1: Version) {
    g0 < g1 || (g0 == g1 && m0 <= m1)
  }

  predicate Progressed(s: NodeView, t: NodeView) {
    LexLeq(s.lastGcVersion, s.maxVersion, t.lastGcVersion, t.maxVersion)
  }

  predicate StrictlyProgressed(s: NodeView, t: NodeView) {
    Progressed(s, t) && (s.lastGcVersion, s.maxVersion) != (t.lastGcVersion, t.maxVersion)
  }

  class NodeState {
    const chitchatId: ChitchatId
    var heartbeat: nat
    var keyValues: map<Text, VersionedValue>
    var maxVersion: Version
    var lastGcVersion: Version

    function View(): NodeView
      reads this
    {
      NodeView(heartbeat, keyValues, maxVersion, lastGcVersion)
    }

    constructor (chitchatId: ChitchatId)
      ensures this.chitchatId == chitchatId && View() == EMPTY_VIEW
    {
      this.chitchatId := chitchatId;
      heartbeat, keyValues, maxVersion, lastGcVersion := 0, map[], 0, 0;
    }

    method TrySetHeartbeat(newValue: nat) returns (isNews: bool)
      modifies this
      ensures (View(), isNews) == WithHeartbeat(old(View()), newValue)
    {
      if heartbeat == 0 {
        heartbeat := newValue;
        return false;
      }
      if newValue > heartbeat {
        heartbeat := newValue;
        return true;
      }
      return false;
    }

    method IncHeartbeat()
      modifies this
      ensures View() == old(View()).(heartbeat := old(heartbeat) + 1)
    {
      heartbeat := heartbeat + 1;
    }

    /** `event` is the key and value for which the listeners are called. */
    method SetVersionedValue(key: Text, update: VersionedValue) returns (event: Option<(Text, Text)>)
      modifies this
      ensures View() == WithVersionedValue(old(View()), key, update)
      ensures event == if View().keyValues != old(View()).keyValues && !update.status.Deleted? then Some((key, update.value)) else None
    {
      maxVersion := Max(update.version, maxVersion);
      if key in keyValues {
        if keyValues[key].version >= update.version {
          return None;
        }
        keyValues := keyValues[key := update];
      } else {
        keyValues := keyValues[key := update];
      }
      return if update.status.Deleted? then None else Some((key, update.value));
    }

    method SetWithVersion(key: Text, value: Text, version: Version)
      requires version > maxVersion
      modifies this
      ensures View() == WithVersionedValue(old(View()), key, VersionedValue(value, version, DeletionStatus.Set))
    {
      var _ := SetVersionedValue(key, VersionedValue(value, version, DeletionStatus.Set));
    }

    method Set(key: Text, value: Text, now: Instant)
      modifies this
      ensures View() == OwnerWrite(old(View()), OpSet(key, value), now)
    {
      if key in keyValues {
        var previous := keyValues[key];
        if previous.value == value && previous.status.Set? {
          return;
        }
      }
      var newVersion := maxVersion + 1;
      SetWithVersion(key, value, newVersion);
    }

    method SetWithTtl(key: Text, value: Text, now: Instant)
      modifies this
      ensures View() == OwnerWrite(old(View()), OpSetWithTtl(key, value), now)
    {
      if key in keyValues {
        var previous := keyValues[key];
        if previous.value == value && previous.status.DeleteAfterTtl? {
          return;
        }
      }
      var newVersion := maxVersion + 1;
      var _ := SetVersionedValue(key, VersionedValue(value, newVersion, DeleteAfterTtl(now)));
    }

    method Delete(key: Text, now: Instant)
      modifies this
      ensures View() == OwnerWrite(old(View()), OpDelete(key), now)
    {
      if key !in keyValues {
        return;
      }
      maxVersion := maxVersion + 1;
      keyValues := keyValues[key := VersionedValue([], maxVersion, MutDelete.IntoStatus(now))];
    }

    method DeleteAfterTtlOf(key: Text, now: Instant)
      modifies this
      ensures View() == OwnerWrite(old(View()), OpDeleteAfterTtl(key), now)
    {
      if key !in keyValues {
        return;
      }
      maxVersion := maxVersion + 1;
      keyValues := keyValues[key := keyValues[key].(version := maxVersion,
                                                    status := MutDeleteAfterTtl.IntoStatus(now))];
    }

    method GcKeysMarkedForDeletion(now: Instant, grace: Instant)
      modifies this
      ensures View() == Collect(old(View()), now, grace)
    {
      var maxDeletedVersion := lastGcVersion;
      ghost var before := keyValues;
      var todo := keyValues.Keys;
      while todo != {}
        invariant todo <= before.Keys
        invariant heartbeat == old(heartbeat) && maxVersion == old(maxVersion)
        invariant lastGcVersion == old(lastGcVersion) <= maxDeletedVersion
        invariant keyValues.Keys <= before.Keys
        invariant forall k | k in before :: k in keyValues <==> k in todo || !Expired(before[k], now, grace)
        invariant forall k | k in keyValues :: keyValues[k] == before[k]
        invariant forall k | k in before && k !in keyValues :: before[k].version <= maxDeletedVersion
        invariant maxDeletedVersion == lastGcVersion
                  || exists k :: k in before && k !in keyValues && before[k].version == maxDeletedVersion
        decreases todo
      {
        var k :| k in todo;
        todo := todo - {k};
        var vv := keyValues[k];
        if vv.status.ScheduledForDeletion() && now >= vv.status.since + grace {
          maxDeletedVersion := Max(vv.version, maxDeletedVersion);
          keyValues := keyValues - {k};
        }
      }
      lastGcVersion := maxDeletedVersion;
      GcVersionIsUnique(before, keyValues, now, grace, old(lastGcVersion), maxDeletedVersion);
    }

    /** Decides whether a delta can be applied; starts the state over when it must. */
    method PrepareApplyDelta(d: NodeDelta) returns (ok: bool)
      modifies this
      ensures ok == (Applicable(old(View()), d) || Resets(old(View()), d))
      ensures View() == if Resets(old(View()), d) then ResetView(d) else old(View())
    {
      if d.fromVersionExcluded > maxVersion {
        return false;
      }
      if maxVersion > d.lastGcVersion {
        return true;
      }
      if lastGcVersion >= d.lastGcVersion {
        return true;
      }
      // The source only logs a warning here when d.fromVersionExcluded > 0.
      var deltaMaxVersion := DeltaMaxVersion(d);
      if deltaMaxVersion.None? {
        return false;
      }
      if LexLeq(d.lastGcVersion, deltaMaxVersion.value, lastGcVersion, maxVersion) {
        // "Not fresher": unreachable, since lastGcVersion < d.lastGcVersion here.
        assert false;
      }
      heartbeat, keyValues, maxVersion, lastGcVersion := 0, map[], 0, 0;
      if d.maxVersion.Some? && d.keyValues == [] {
        maxVersion := d.maxVersion.value;
      }
      lastGcVersion := d.lastGcVersion;
      return true;
    }

    method ApplyNodeDelta(d: NodeDelta, now: Instant)
      modifies this
      ensures View() == ApplyDelta(old(View()), d, now)
    {
      var ok := PrepareApplyDelta(d);
      if !ok {
        return;
      }
      var currentMaxVersion := maxVersion;
      ghost var start := View();
      for n := 0 to |d.keyValues|
        invariant View() == ApplyMutations(start, currentMaxVersion, d.keyValues[..n], now)
      {
        assert d.keyValues[..n + 1][..n] == d.keyValues[..n];
        var m := d.keyValues[n];
        if m.version <= currentMaxVersion {
          continue;
        }
        if m.status.ScheduledForDeletion() {
          if m.version <= lastGcVersion {
            continue;
          }
        }
        var _ := SetVersionedValue(m.key, VersionedValue(m.value, m.version, m.status.IntoStatus(now)));
      }
      assert d.keyValues[..|d.keyValues|] == d.keyValues;
    }
  }

  lemma GcVersionIsUnique(before: map<Text, VersionedValue>, kept: map<Text, VersionedValue>,
                          now: Instant, grace: Instant, floor: Version, m: Version)
    requires kept == map k | k in before && !Expired(before[k], now, grace) :: before[k]
    requires floor <= m
    requires forall k | k in before && k !in kept :: before[k].version <= m
    requires m == floor || exists k :: k in before && k !in kept && before[k].version == m
    ensures m == MaxVersionOf(ExpiredVersions(before, now, grace), floor)
  {
    var top := MaxVersionOf(ExpiredVersions(before, now, grace), floor);
    if m != floor {
      var k :| k in before && k !in kept && before[k].version == m;
      assert before[k].version in ExpiredVersions(before, now, grace);
    }
  }

  // ---------- invariants every state keeps ----------

  /** Entries carry versions in 1..maxVersion. */
  predicate VersionsBounded(s: NodeView) {
    forall k | k in s.keyValues :: 1 <= s.keyValues[k].version <= s.maxVersion
  }

  /** No two entries share a version. */
  predicate VersionsDistinct(s: NodeView) {
    forall j, k | j in s.keyValues && k in s.keyValues && s.keyValues[j].version == s.keyValues[k].version :: j == k
  }

  /** What a parser guarantees of the mutations of one node. */
  predicate StrictlyIncreasing(ms: seq<KeyValueMutation>) {
    forall i, j | 0 <= i < j < |ms| :: ms[i].version < ms[j].version
  }

  lemma {:induction false} ApplyKeepsVersionsDistinct(
      s: NodeView, current: Version, ms: seq<KeyValueMutation>, now: Instant)
    requires VersionsBounded(s) && VersionsDistinct(s) && StrictlyIncreasing(ms)
    requires s.maxVersion == current
    ensures var t := ApplyMutations(s, current, ms, now);
            && VersionsBounded(t) && VersionsDistinct(t)
            && t.lastGcVersion == s.lastGcVersion
            && s.maxVersion <= t.maxVersion
            && (forall k | k in t.keyValues :: t.keyValues[k].version <= s.maxVersion
                                               || (ms != [] && t.keyValues[k].version <= ms[|ms| - 1].version))
  {
    if ms != [] {
      var init, m := ms[..|ms| - 1], ms[|ms| - 1];
      ApplyKeepsVersionsDistinct(s, current, init, now);
      var before := ApplyMutations(s, current, init, now);
      if Accepts(current, before.lastGcVersion, m) {
        assert forall k | k in before.keyValues :: before.keyValues[k].version < m.version;
      }
    }
  }

  lemma WriteKeepsVersionsDistinct(s: NodeView, op: OwnerOp, now: Instant)
    requires VersionsBounded(s) && VersionsDistinct(s)
    ensures VersionsBounded(OwnerWrite(s, op, now)) && VersionsDistinct(OwnerWrite(s, op, now))
  {
    var t := OwnerWrite(s, op, now);
    assert forall k | k in t.keyValues && k != op.key :: k in s.keyValues && t.keyValues[k] == s.keyValues[k];
  }

  lemma CollectionKeepsVersionsDistinct(s: NodeView, now: Instant, grace: Instant)
    requires VersionsBounded(s) && VersionsDistinct(s)
    ensures VersionsBounded(Collect(s, now, grace)) && VersionsDistinct(Collect(s, now, grace))
  {
  }

  lemma DeltaKeepsVersionsDistinct(s: NodeView, d: NodeDelta, now: Instant)
    requires VersionsBounded(s) && VersionsDistinct(s) && StrictlyIncreasing(d.keyValues)
    ensures VersionsBounded(ApplyDelta(s, d, now)) && VersionsDistinct(ApplyDelta(s, d, now))
  {
    hide VersionsBounded, VersionsDistinct, ApplyMutations, StrictlyIncreasing;
    ApplyKeepsVersionsDistinct(s, s.maxVersion, d.keyValues, now);
    NewStateVersions(d);
    ApplyKeepsVersionsDistinct(ResetView(d), ResetView(d).maxVersion, d.keyValues, now);
  }

  lemma NewStateVersions(d: NodeDelta)
    ensures VersionsBounded(ResetView(d)) && VersionsDistinct(ResetView(d))
  {
  }

  // ---------- progress ----------

  lemma {:induction false} ApplyMutationsProgress(s: NodeView, current: Version, ms: seq<KeyValueMutation>, now: Instant)
    requires s.maxVersion == current
    ensures var t := ApplyMutations(s, current, ms, now);
            && t.lastGcVersion == s.lastGcVersion
            && t.heartbeat == s.heartbeat
            && s.maxVersion <= t.maxVersion
            && (forall i | 0 <= i < |ms| && Accepts(current, s.lastGcVersion, ms[i]) :: ms[i].version <= t.maxVersion)
            && (t == s || exists i :: 0 <= i < |ms| && Accepts(current, s.lastGcVersion, ms[i]) && t.maxVersion == ms[i].version)
  {
    if ms != [] {
      ApplyMutationsProgress(s, current, ms[..|ms| - 1], now);
    }
  }

  predicate BringsNews(s: NodeView, d: NodeDelta) {
    exists i :: 0 <= i < |d.keyValues| && Accepts(s.maxVersion, s.lastGcVersion, d.keyValues[i])
  }

  /** Whatever the delta, the pair (lastGcVersion, maxVersion) never goes back; it moves forward exactly
      when the delta resets the state or brings a newer mutation, and otherwise nothing changes.
      A reset strictly raises lastGcVersion. */
  lemma ApplyDeltaProgress(s: NodeView, d: NodeDelta, now: Instant)
    ensures var t := ApplyDelta(s, d, now);
            && Progressed(s, t)
            && (StrictlyProgressed(s, t) <==> Resets(s, d) || (Applicable(s, d) && BringsNews(s, d)))
            && (!StrictlyProgressed(s, t) ==> t == s)
            && (Resets(s, d) ==> s.lastGcVersion < t.lastGcVersion == d.lastGcVersion)
    ensures d.fromVersionExcluded <= s.maxVersion && BringsNews(s, d) ==>
              StrictlyProgressed(s, ApplyDelta(s, d, now))
  {
    ApplyMutationsProgress(s, s.maxVersion, d.keyValues, now);
    ApplyMutationsProgress(ResetView(d), ResetView(d).maxVersion, d.keyValues, now);
  }

  /** Anything that happens to a node state. */
  datatype Event =
    | Wrote(op: OwnerOp, at: Instant)
    | Collected(at: Instant, grace: Instant)
    | Got(delta: NodeDelta, at: Instant)

  ghost function AfterEvent(s: NodeView, e: Event): NodeView {
    match e
    case Wrote(op, at) => OwnerWrite(s, op, at)
    case Collected(at, grace) => Collect(s, at, grace)
    case Got(d, at) => ApplyDelta(s, d, at)
  }

  ghost function AfterEvents(s: NodeView, es: seq<Event>): NodeView {
    if es == [] then s else AfterEvent(AfterEvents(s, es[..|es| - 1]), es[|es| - 1])
  }

  ghost function ResetCount(s: NodeView, es: seq<Event>): nat {
    if es == [] then 0
    else
      var e := es[|es| - 1];
      ResetCount(s, es[..|es| - 1])
      + if e.Got? && Resets(AfterEvents(s, es[..|es| - 1]), e.delta) then 1 else 0
  }

  /** Over any run of writes, collections and arbitrary deltas the pair (lastGcVersion, maxVersion) is
      non-decreasing, and the number of resets is at most the growth of lastGcVersion. */
  lemma {:induction false} RunsProgress(s: NodeView, es: seq<Event>)
    ensures Progressed(s, AfterEvents(s, es))
    ensures ResetCount(s, es) <= AfterEvents(s, es).lastGcVersion - s.lastGcVersion
  {
    if es != [] {
      RunsProgress(s, es[..|es| - 1]);
      var e := es[|es| - 1];
      if e.Got? {
        ApplyDeltaProgress(AfterEvents(s, es[..|es| - 1]), e.delta, e.at);
      }
    }
  }

  /** In every state that local writes, collection and any deltas that parse lead to, the entries have pairwise
      distinct versions in 1..maxVersion. */
  lemma {:induction false} VersionsStayDistinct(s: NodeView, es: seq<Event>)
    requires VersionsBounded(s) && VersionsDistinct(s)
    requires forall e | e in es :: e.Got? ==> StrictlyIncreasing(e.delta.keyValues)
    ensures VersionsBounded(AfterEvents(s, es)) && VersionsDistinct(AfterEvents(s, es))
  {
    hide VersionsBounded, VersionsDistinct, StrictlyIncreasing, OwnerWrite, Collect, ApplyDelta;
    if es != [] {
      var before := AfterEvents(s, es[..|es| - 1]);
      VersionsStayDistinct(s, es[..|es| - 1]);
      match es[|es| - 1]
      case Wrote(op, at) => WriteKeepsVersionsDistinct(before, op, at);
      case Collected(at, grace) => CollectionKeepsVersionsDistinct(before, at, grace);
      case Got(d, at) => DeltaKeepsVersionsDistinct(before, d, at);
    }
  }
}
