/** Which part of a cluster state goes into a delta: nodes by staleness, entries by version, as many as the
    MTU lets through. */
module PartialDeltas {
  import opened Types
  import opened NodeStates
  import opened Replication
  import opened Codecs
  import opened Streams
  import opened Deltas
  import opened DeltaWire

  datatype NodeDigest = NodeDigest(heartbeat: nat, lastGcVersion: Version, maxVersion: Version)

  type Digest = map<ChitchatId, NodeDigest>

  type Views = map<ChitchatId, NodeView>

  function DigestGc(digest: Digest, id: ChitchatId): Version {
    if id in digest then digest[id].lastGcVersion else 0
  }

  function DigestMax(digest: Digest, id: ChitchatId): Version {
    if id in digest then digest[id].maxVersion else 0
  }

  // ---------- staleness ----------

  datatype Staleness = Staleness(isUnknown: bool, maxVersion: Version, numStaleKeyValues: nat)

  /** `Staleness::cmp`: unknown nodes first, among them the lowest maxVersion; then by stale entries. */
  predicate NoStalerThan(a: Staleness, b: Staleness) {
    if a.isUnknown != b.isUnknown then b.isUnknown
    else if a.isUnknown then b.maxVersion <= a.maxVersion
    else a.numStaleKeyValues <= b.numStaleKeyValues
  }

  function StalenessScore(s: NodeView, floor: Version): Staleness {
    Staleness(
      floor == 0,
      s.maxVersion,
      if floor == 0 then |set k | k in s.keyValues && !s.keyValues[k].status.Deleted?|
      else |set k | k in s.keyValues && s.keyValues[k].version > floor|)
  }

  function FloorOf(views: Views, digest: Digest, id: ChitchatId): Version
    requires id in views
  {
    FromVersion(views[id].lastGcVersion, DigestGc(digest, id), DigestMax(digest, id))
  }

  function ScoreOf(views: Views, digest: Digest, id: ChitchatId): Staleness
    requires id in views
  {
    StalenessScore(views[id], FloorOf(views, digest, id))
  }

  /** The nodes that have something for the peer, and are not about to be deleted. */
  function StaleNodes(views: Views, digest: Digest, scheduled: set<ChitchatId>): (ids: set<ChitchatId>)
    ensures ids <= views.Keys - scheduled
  {
    set id | id in views && id !in scheduled && views[id].maxVersion > DigestMax(digest, id)
  }

  /** An order in which the nodes `ids` may be written: each once, none before a staler one. */
  ghost predicate IsOrder(views: Views, digest: Digest, ids: set<ChitchatId>, order: seq<ChitchatId>)
    requires ids <= views.Keys
  {
    && (forall i, j | 0 <= i < j < |order| :: order[i] != order[j])
    && (forall id :: id in order <==> id in ids)
    && (forall i, j | 0 <= i < j < |order| ::
          NoStalerThan(ScoreOf(views, digest, order[j]), ScoreOf(views, digest, order[i])))
  }

  predicate Stalest(views: Views, digest: Digest, ids: set<ChitchatId>, id: ChitchatId)
    requires ids <= views.Keys
  {
    id in ids && forall other | other in ids :: NoStalerThan(ScoreOf(views, digest, other), ScoreOf(views, digest, id))
  }

  lemma {:induction false} StalestExists(views: Views, digest: Digest, ids: set<ChitchatId>) returns (top: ChitchatId)
    requires ids <= views.Keys && ids != {}
    ensures Stalest(views, digest, ids, top)
    decreases |ids|
  {
    hide ScoreOf;
    var id :| id in ids;
    if ids == {id} {
      top := id;
    } else {
      var rest := ids - {id};
      assert ids == rest + {id};
      top := StalestExists(views, digest, rest);
      if !NoStalerThan(ScoreOf(views, digest, id), ScoreOf(views, digest, top)) {
        top := id;
      }
    }
  }

  lemma {:induction false} OrderExists(views: Views, digest: Digest, ids: set<ChitchatId>) returns (order: seq<ChitchatId>)
    requires ids <= views.Keys
    ensures IsOrder(views, digest, ids, order)
    decreases |ids|
  {
    hide ScoreOf, NoStalerThan;
    if ids == {} {
      order := [];
    } else {
      var top := StalestExists(views, digest, ids);
      var rest := OrderExists(views, digest, ids - {top});
      order := [top] + rest;
      assert forall id :: id in rest <==> id in ids && id != top;
    }
  }

  // ---------- what a complete delta would hold ----------

  ghost function FullNodeDelta(views: Views, digest: Digest, id: ChitchatId): NodeDelta
    requires id in views
  {
    var s, floor := views[id], FloorOf(views, digest, id);
    NodeDelta(id, floor, s.lastGcVersion, StaleKeyValues(s, floor),
              if StaleKeyValues(s, floor) == [] then Some(s.maxVersion) else None)
  }

  ghost function FullNodeDeltas(views: Views, digest: Digest, order: seq<ChitchatId>): (ds: seq<NodeDelta>)
    requires forall id | id in order :: id in views
    ensures |ds| == |order|
    ensures forall i | 0 <= i < |order| :: ds[i] == FullNodeDelta(views, digest, order[i])
  {
    if order == [] then []
    else FullNodeDeltas(views, digest, order[..|order| - 1]) + [FullNodeDelta(views, digest, order[|order| - 1])]
  }

  /** A node delta after its first m operations. */
  function CutNode(d: NodeDelta, m: nat): NodeDelta
    requires m >= 1
  {
    d.(keyValues := d.keyValues[..Min(m - 1, |d.keyValues|)],
       maxVersion := if m - 1 > |d.keyValues| then d.maxVersion else None)
  }

  /** The node deltas that the first n operations spell out. */
  function Cut(ds: seq<NodeDelta>, n: nat): seq<NodeDelta> {
    if ds == [] || n == 0 then []
    else
      var init := ds[..|ds| - 1];
      if n <= |GetOperations(init)| then Cut(init, n)
      else init + [CutNode(ds[|ds| - 1], n - |GetOperations(init)|)]
  }

  lemma CutNodeOperations(d: NodeDelta, m: nat)
    requires 1 <= m <= |NodeOps(d)|
    ensures NodeOps(CutNode(d, m)) == NodeOps(d)[..m]
  {
  }

  lemma CutNodeWhole(d: NodeDelta, m: nat)
    requires m >= |NodeOps(d)|
    ensures CutNode(d, m) == d
  {
    assert d.keyValues[..|d.keyValues|] == d.keyValues;
  }

  /** Cutting a delta is cutting its operations. */
  lemma {:induction false} CutOperations(ds: seq<NodeDelta>, n: nat)
    requires n <= |GetOperations(ds)|
    ensures GetOperations(Cut(ds, n)) == GetOperations(ds)[..n]
  {
    if ds != [] && n > 0 {
      hide NodeOps;
      var init, d := ds[..|ds| - 1], ds[|ds| - 1];
      if n <= |GetOperations(init)| {
        CutOperations(init, n);
      } else {
        var m := n - |GetOperations(init)|;
        CutNodeOperations(d, m);
        OperationsOfLast(init, CutNode(d, m));
      }
    }
  }

  /** `c` is a cut of `ds`: its nodes are the first nodes of `ds`, all but the last one whole; of the last one
      it has an initial segment of the entries. */
  predicate IsCutOf(c: seq<NodeDelta>, ds: seq<NodeDelta>) {
    && |c| <= |ds|
    && (forall i | 0 <= i < |c| - 1 :: c[i] == ds[i])
    && (c != [] ==>
          var last, whole := c[|c| - 1], ds[|c| - 1];
          && last.chitchatId == whole.chitchatId
          && last.lastGcVersion == whole.lastGcVersion
          && last.fromVersionExcluded == whole.fromVersionExcluded
          && last.keyValues <= whole.keyValues
          && (last.maxVersion == None || last == whole))
  }

  lemma CutNodeIsCut(init: seq<NodeDelta>, d: NodeDelta, m: nat)
    requires m >= 1
    ensures IsCutOf(init + [CutNode(d, m)], init + [d])
  {
  }

  lemma CutOfMore(c: seq<NodeDelta>, init: seq<NodeDelta>, d: NodeDelta)
    requires IsCutOf(c, init)
    ensures IsCutOf(c, init + [d])
  {
  }

  lemma OperationsCount(ds: seq<NodeDelta>)
    requires ds != []
    ensures |GetOperations(ds)| == |GetOperations(ds[..|ds| - 1])| + |NodeOps(ds[|ds| - 1])| && |NodeOps(ds[|ds| - 1])| > 0
  {
  }

  lemma {:induction false} CutIsCut(ds: seq<NodeDelta>, n: nat)
    ensures IsCutOf(Cut(ds, n), ds)
    ensures n >= |GetOperations(ds)| ==> Cut(ds, n) == ds
  {
    if ds != [] {
      hide NodeOps, GetOperations, CutNode, IsCutOf;
      var init, d := ds[..|ds| - 1], ds[|ds| - 1];
      assert ds == init + [d];
      OperationsCount(ds);
      if n == 0 {
        NothingIsCutOf(ds);
      } else if n <= |GetOperations(init)| {
        CutIsCut(init, n);
        CutOfMore(Cut(init, n), init, d);
      } else {
        var m := n - |GetOperations(init)|;
        CutNodeIsCut(init, d, m);
        if n >= |GetOperations(ds)| {
          CutNodeWhole(d, m);
        }
      }
    }
  }

  lemma NothingIsCutOf(ds: seq<NodeDelta>)
    ensures IsCutOf([], ds)
  {
  }

  lemma CutIsWellFormed(c: seq<NodeDelta>, ds: seq<NodeDelta>)
    requires IsCutOf(c, ds) && WellFormed(ds)
    ensures WellFormed(c)
  {
    forall i | 0 <= i < |c| ensures c[i].chitchatId == ds[i].chitchatId && StrictlyIncreasing(c[i].keyValues) {
      assert ds[i] in ds;
    }
    forall d | d in c ensures StrictlyIncreasing(d.keyValues) {
      var i :| 0 <= i < |c| && c[i] == d;
    }
  }

  /** What holds of the views of every reachable cluster state (lemma `VersionsStayDistinct`). */
  ghost predicate VersionsOk(views: Views) {
    forall id | id in views :: VersionsBounded(views[id]) && VersionsDistinct(views[id])
  }

  lemma FullIsWellFormed(views: Views, digest: Digest, ids: set<ChitchatId>, order: seq<ChitchatId>)
    requires ids <= views.Keys && IsOrder(views, digest, ids, order)
    ensures WellFormed(FullNodeDeltas(views, digest, order))
  {
    var ds := FullNodeDeltas(views, digest, order);
    forall d | d in ds ensures StrictlyIncreasing(d.keyValues) {
      var i :| 0 <= i < |ds| && ds[i] == d;
      var id := order[i];
      SliceElements(views[id].keyValues, FloorOf(views, digest, id), views[id].maxVersion);
    }
  }

  // ---------- the specification of a partial delta ----------

  /** The first n operations of a complete delta can be taken. */
  ghost predicate CanBeTaken(z: Zstd, mtu: nat, all: seq<DeltaOp>, n: nat)
    requires mtu > 0
  {
    n <= |all| && forall i | 0 <= i < n :: AttemptOf(z, mtu, all[..i], all[i]).Added?
  }

  /** The first n operations of a complete delta were taken, and the next one, if any, did not fit. */
  ghost predicate TakenGreedily(z: Zstd, mtu: nat, all: seq<DeltaOp>, n: nat)
    requires mtu > 0
  {
    CanBeTaken(z, mtu, all, n) && (n < |all| ==> AttemptOf(z, mtu, all[..n], all[n]).Refused?)
  }

  /** The first n operations were taken, and the next one fits but is too long for `append`. */
  ghost predicate PanicsAt(z: Zstd, mtu: nat, all: seq<DeltaOp>, n: nat)
    requires mtu > 0
  {
    CanBeTaken(z, mtu, all, n) && n < |all| && AttemptOf(z, mtu, all[..n], all[n]).Panicked?
  }

  /** Operations are taken up to one place only, and that place says whether `append` panics. */
  lemma StopIsUnique(z: Zstd, mtu: nat, all: seq<DeltaOp>, m: nat, n: nat)
    requires mtu > 0
    requires TakenGreedily(z, mtu, all, m) || PanicsAt(z, mtu, all, m)
    requires TakenGreedily(z, mtu, all, n) || PanicsAt(z, mtu, all, n)
    ensures m == n && (PanicsAt(z, mtu, all, m) <==> PanicsAt(z, mtu, all, n)) && !(TakenGreedily(z, mtu, all, m) && PanicsAt(z, mtu, all, n))
  {
    hide AttemptOf;
  }

  lemma {:induction false} PrefixReplays(ops: seq<DeltaOp>, n: nat)
    requires Replay(ops).Some? && n <= |ops|
    ensures Replay(ops[..n]).Some?
    ensures n < |ops| ==> Takes(Replay(ops[..n]).value, ops[n])
    decreases |ops|
  {
    hide Takes, ApplyOp;
    if n == |ops| {
      assert ops[..n] == ops;
    } else {
      LastStepOf(ops);
      if n < |ops| - 1 {
        PrefixReplays(ops[..|ops| - 1], n);
        assert ops[..|ops| - 1][..n] == ops[..n];
      }
    }
  }

  /** In whatever way the complete delta of distinct nodes is cut, the builder takes every operation: the
      serializer's assertion on the builder never fires. */
  lemma BuilderNeverRefuses(ds: seq<NodeDelta>, n: nat)
    requires WellFormed(ds) && n <= |GetOperations(ds)|
    ensures Replay(GetOperations(ds)[..n]).Some?
    ensures n < |GetOperations(ds)| ==> Takes(Replay(GetOperations(ds)[..n]).value, GetOperations(ds)[n])
    ensures Build(GetOperations(ds)[..n]) == Some(Cut(ds, n))
    ensures MaxVersionEndsNode(GetOperations(ds)[..n])
  {
    hide *;
    var ops := GetOperations(ds);
    WellFormedReplays(ds);
    PrefixReplays(ops, n);
    CutOperations(ds, n);
    CutIsCut(ds, n);
    CutIsWellFormed(Cut(ds, n), ds);
    DeltaComesBackExactly(Cut(ds, n));
    OperationsEndNodes(Cut(ds, n));
  }

  // ---------- computing it ----------

  lemma {:induction false} OldestExists(kvs: map<Text, VersionedValue>, keys: set<Text>) returns (k: Text)
    requires keys <= kvs.Keys && keys != {}
    ensures k in keys && forall j | j in keys :: kvs[k].version <= kvs[j].version
    decreases |keys|
  {
    var any :| any in keys;
    if keys == {any} {
      k := any;
    } else {
      assert keys == (keys - {any}) + {any};
      k := OldestExists(kvs, keys - {any});
      if kvs[any].version < kvs[k].version {
        k := any;
      }
    }
  }

  /** Halfway through the sort: `ms` holds the oldest of the newer entries, `todo` the keys of the others. */
  ghost predicate SortedSoFar(s: NodeView, floor: Version, ms: seq<KeyValueMutation>, todo: set<Text>) {
    && (forall k | k in todo :: k in s.keyValues && s.keyValues[k].version > floor)
    && StrictlyIncreasing(ms)
    && (forall m :: m in ms <==> m.key in s.keyValues && m.key !in todo && m == MutationOf(m.key, s.keyValues[m.key]) && m.version > floor)
    && (forall i, k | 0 <= i < |ms| && k in todo :: ms[i].version < s.keyValues[k].version)
  }

  lemma SortStep(s: NodeView, floor: Version, ms: seq<KeyValueMutation>, todo: set<Text>, k: Text)
    requires VersionsDistinct(s) && SortedSoFar(s, floor, ms, todo)
    requires k in todo && forall j | j in todo :: s.keyValues[k].version <= s.keyValues[j].version
    ensures SortedSoFar(s, floor, ms + [MutationOf(k, s.keyValues[k])], todo - {k})
  {
    var m := MutationOf(k, s.keyValues[k]);
    var ms', todo' := ms + [m], todo - {k};
    assert forall x :: x in ms' <==> x in ms || x == m;
    forall i, j | 0 <= i < |ms'| && j in todo' ensures ms'[i].version < s.keyValues[j].version {
      assert s.keyValues[k].version != s.keyValues[j].version;
    }
  }

  /** The entries newer than `floor`, sorted by version. */
  method SortedStaleKeyValues(s: NodeView, floor: Version) returns (ms: seq<KeyValueMutation>)
    requires VersionsBounded(s) && VersionsDistinct(s)
    ensures ms == StaleKeyValues(s, floor)
  {
    var todo := set k | k in s.keyValues && s.keyValues[k].version > floor;
    ms := [];
    while todo != {}
      invariant SortedSoFar(s, floor, ms, todo)
      decreases todo
    {
      ghost var oldest := OldestExists(s.keyValues, todo);
      var k :| k in todo && forall j | j in todo :: s.keyValues[k].version <= s.keyValues[j].version;
      SortStep(s, floor, ms, todo, k);
      todo := todo - {k};
      ms := ms + [MutationOf(k, s.keyValues[k])];
    }
    StaleKeyValuesIsTheSort(s, floor, ms);
  }

  /** Tries the operation that comes next in the complete delta `ds`. */
  method TryNext(serializer: DeltaSerializer, ghost ds: seq<NodeDelta>, op: DeltaOp) returns (r: Attempt)
    requires serializer.Valid()
    requires WellFormed(ds) && serializer.ops < GetOperations(ds) && op == GetOperations(ds)[|serializer.ops|]
    modifies serializer`ops, serializer.writer, serializer.builder
    ensures serializer.Valid()
    ensures r == AttemptOf(serializer.zstd, serializer.mtu, old(serializer.ops), op)
    ensures serializer.ops == if r.Added? then old(serializer.ops) + [op] else old(serializer.ops)
    ensures serializer.ops <= GetOperations(ds)
  {
    assert serializer.mtu >= 100;
    hide WellFormed, GetOperations, AttemptOf, Replay, Takes, OpLen, DeltaSerializer.Valid;
    NextIsTaken(ds, serializer.ops, op);
    r := serializer.TryAddOp(op);
  }

  lemma NextIsTaken(ds: seq<NodeDelta>, ops: seq<DeltaOp>, op: DeltaOp)
    requires WellFormed(ds) && ops < GetOperations(ds) && op == GetOperations(ds)[|ops|]
    ensures Replay(ops).Some? && Takes(Replay(ops).value, op) && ops + [op] <= GetOperations(ds)
  {
    hide WellFormed, GetOperations, Replay, Takes;
    assert GetOperations(ds)[..|ops|] == ops;
    BuilderNeverRefuses(ds, |ops|);
  }

  /** How far the writing of a delta has come: it goes on, an operation did not fit, or `append` panicked. */
  datatype Progress = Going | Stopped | Aborted

  /** Writes the operation that comes next in the complete delta `ds`. */
  method WriteNext(serializer: DeltaSerializer, ghost ds: seq<NodeDelta>, op: DeltaOp) returns (progress: Progress)
    requires serializer.Valid()
    requires WellFormed(ds) && serializer.ops < GetOperations(ds) && op == GetOperations(ds)[|serializer.ops|]
    modifies serializer`ops, serializer.writer, serializer.builder
    ensures serializer.Valid()
    ensures if progress.Going? then serializer.ops <= GetOperations(ds) && |serializer.ops| == |old(serializer.ops)| + 1
            else Written(serializer.zstd, serializer.mtu, GetOperations(ds), serializer.ops, progress)
    ensures progress.Stopped? && op.OpSetMaxVersion? ==>
              Written(serializer.zstd, serializer.mtu, GetOperations(ds), serializer.ops, Going)
    ensures progress.Aborted? ==> !op.OpSetMaxVersion?
  {
    assert serializer.mtu >= 100;
    hide GetOperations, WellFormed, AttemptOf, DeltaSerializer.Valid, Written;
    ghost var all, n := GetOperations(ds), |serializer.ops|;
    assert all[..n] == serializer.ops;
    WrittenUpTo(serializer.zstd, serializer.mtu, all, n);
    if op.OpSetMaxVersion? {
      MaxVersionIsShort(serializer.zstd, serializer.mtu, serializer.ops, op.maxVersion);
    }
    var r := TryNext(serializer, ds, op);
    match r
    case Added => return Going;
    case Refused => return Stopped;
    case Panicked => return Aborted;
  }

  /** Writes the entries of a node whose header is written. */
  method WriteKeyValues(serializer: DeltaSerializer, ghost before: seq<NodeDelta>, ghost d: NodeDelta, ms: seq<KeyValueMutation>)
    returns (progress: Progress)
    requires serializer.Valid()
    requires WellFormed(before + [d]) && d.keyValues == ms
    requires serializer.ops == GetOperations(before) + [OpNode(d.chitchatId, d.lastGcVersion, d.fromVersionExcluded)]
    modifies serializer`ops, serializer.writer, serializer.builder
    ensures serializer.Valid()
    ensures if progress.Going? then
              serializer.ops <= GetOperations(before + [d]) && |serializer.ops| == |GetOperations(before)| + 1 + |ms|
            else Written(serializer.zstd, serializer.mtu, GetOperations(before + [d]), serializer.ops, progress)
  {
    assert serializer.mtu >= 100;
    hide GetOperations, WellFormed, AttemptOf, DeltaSerializer.Valid, Written;
    ghost var ds, base := before + [d], |GetOperations(before)|;
    NodeLength(before, d);
    for i := 0 to |ms|
      invariant serializer.Valid()
      invariant serializer.ops <= GetOperations(ds) && |serializer.ops| == base + 1 + i
    {
      NodeEntry(before, d, i);
      progress := WriteNext(serializer, ds, OpKeyValue(ms[i]));
      if !progress.Going? {
        return;
      }
    }
    return Going;
  }

  /** Writes the entries of a node whose header is written or, when it has none, its maxVersion.  A maxVersion that
      does not fit is passed over. */
  method WriteEntries(serializer: DeltaSerializer, ghost before: seq<NodeDelta>, ghost d: NodeDelta,
                      ms: seq<KeyValueMutation>, maxVersion: Version)
    returns (progress: Progress)
    requires serializer.Valid()
    requires WellFormed(before + [d])
    requires d.keyValues == ms && d.maxVersion == if ms == [] then Some(maxVersion) else None
    requires serializer.ops == GetOperations(before) + [OpNode(d.chitchatId, d.lastGcVersion, d.fromVersionExcluded)]
    modifies serializer`ops, serializer.writer, serializer.builder
    ensures serializer.Valid()
    ensures Written(serializer.zstd, serializer.mtu, GetOperations(before + [d]), serializer.ops, progress)
  {
    assert serializer.mtu >= 100;
    hide GetOperations, WellFormed, AttemptOf, DeltaSerializer.Valid, Written;
    ghost var all := GetOperations(before + [d]);
    progress := WriteKeyValues(serializer, before, d, ms);
    if !progress.Going? {
      return;
    }
    NodeLength(before, d);
    if ms == [] {
      NodeMaxVersion(before, d);
      progress := WriteNext(serializer, before + [d], OpSetMaxVersion(maxVersion));
      if !progress.Going? {
        return Going;
      }
    }
    WholePrefix(serializer.ops, all);
    WrittenWhole(serializer.zstd, serializer.mtu, all);
  }

  lemma WholePrefix(ops: seq<DeltaOp>, all: seq<DeltaOp>)
    requires ops <= all && |ops| == |all|
    ensures ops == all
  {
  }

  lemma WrittenUpTo(z: Zstd, mtu: nat, all: seq<DeltaOp>, n: nat)
    requires mtu > 0 && n < |all|
    ensures AttemptOf(z, mtu, all[..n], all[n]).Refused? ==> Written(z, mtu, all, all[..n], Stopped)
    ensures AttemptOf(z, mtu, all[..n], all[n]).Refused? && all[n].OpSetMaxVersion? ==> Written(z, mtu, all, all[..n], Going)
    ensures AttemptOf(z, mtu, all[..n], all[n]).Panicked? ==> Written(z, mtu, all, all[..n], Aborted)
  {
    hide AttemptOf;
  }

  lemma WrittenWhole(z: Zstd, mtu: nat, all: seq<DeltaOp>)
    requires mtu > 0
    ensures Written(z, mtu, all, all, Going) && all[..|all|] == all
  {
  }

  lemma MaxVersionIsShort(z: Zstd, mtu: nat, ops: seq<DeltaOp>, maxVersion: Version)
    requires mtu > 0
    ensures !AttemptOf(z, mtu, ops, OpSetMaxVersion(maxVersion)).Panicked?
  {
    hide Fits;
  }

  /** The operations `ops` are all of `all` that could be taken; what stopped them was an operation too long for
      `append` if the writing was aborted, and was not a maxVersion unless writing goes on. */
  ghost predicate Written(z: Zstd, mtu: nat, all: seq<DeltaOp>, ops: seq<DeltaOp>, progress: Progress)
    requires mtu > 0
  {
    && ops <= all
    && (progress != Going ==> |ops| < |all|)
    && (|ops| < |all| ==>
          && AttemptOf(z, mtu, ops, all[|ops|]) == (if progress == Aborted then Attempt.Panicked else Attempt.Refused)
          && (progress == Going ==> all[|ops|].OpSetMaxVersion?))
  }

  lemma NodeLength(before: seq<NodeDelta>, d: NodeDelta)
    ensures var all, base := GetOperations(before + [d]), |GetOperations(before)|;
            && |all| == base + 1 + |d.keyValues| + (if d.maxVersion.Some? then 1 else 0)
            && GetOperations(before) + [OpNode(d.chitchatId, d.lastGcVersion, d.fromVersionExcluded)] <= all
  {
    hide GetOperations;
    NodeInAll(before, d);
  }

  lemma NodeEntry(before: seq<NodeDelta>, d: NodeDelta, i: nat)
    requires i < |d.keyValues|
    ensures var all, n := GetOperations(before + [d]), |GetOperations(before)| + 1 + i;
            n < |all| && all[n] == OpKeyValue(d.keyValues[i])
  {
    hide GetOperations;
    NodeInAll(before, d);
  }

  lemma NodeMaxVersion(before: seq<NodeDelta>, d: NodeDelta)
    requires d.keyValues == [] && d.maxVersion.Some?
    ensures var all, n := GetOperations(before + [d]), |GetOperations(before)| + 1;
            |all| == n + 1 && all[n] == OpSetMaxVersion(d.maxVersion.value)
  {
    hide GetOperations;
    NodeInAll(before, d);
  }

  lemma NodeInAll(before: seq<NodeDelta>, d: NodeDelta)
    ensures var all, base := GetOperations(before + [d]), |GetOperations(before)|;
            && |all| == base + 1 + |d.keyValues| + (if d.maxVersion.Some? then 1 else 0)
            && all[..base] == GetOperations(before)
            && all[base] == OpNode(d.chitchatId, d.lastGcVersion, d.fromVersionExcluded)
            && (forall i | 0 <= i < |d.keyValues| :: all[base + 1 + i] == OpKeyValue(d.keyValues[i]))
            && (d.maxVersion.Some? ==> all[base + 1 + |d.keyValues|] == OpSetMaxVersion(d.maxVersion.value))
  {
    hide *;
    OperationsOfLast(before, d);
    NodeOpsAre(d);
    InPlace(GetOperations(before), NodeOps(d));
  }

  lemma NodeOpsAre(d: NodeDelta)
    ensures |NodeOps(d)| == 1 + |d.keyValues| + (if d.maxVersion.Some? then 1 else 0)
    ensures NodeOps(d)[0] == OpNode(d.chitchatId, d.lastGcVersion, d.fromVersionExcluded)
    ensures forall i | 0 <= i < |d.keyValues| :: NodeOps(d)[1 + i] == OpKeyValue(d.keyValues[i])
    ensures d.maxVersion.Some? ==> NodeOps(d)[1 + |d.keyValues|] == OpSetMaxVersion(d.maxVersion.value)
  {
    var head, kvs := [OpNode(d.chitchatId, d.lastGcVersion, d.fromVersionExcluded)], KeyValueOps(d.keyValues);
    var tail := match d.maxVersion { case None => [] case Some(v) => [OpSetMaxVersion(v)] };
    assert NodeOps(d) == head + kvs + tail;
    hide NodeOps, KeyValueOps;
    InPlace(head, kvs);
    InPlace(head + kvs, tail);
    forall i | 0 <= i < |d.keyValues| ensures NodeOps(d)[1 + i] == OpKeyValue(d.keyValues[i]) {
      assert (head + kvs)[|head| + i] == kvs[i];
    }
    if d.maxVersion.Some? {
      assert NodeOps(d)[|head + kvs| + 0] == tail[0];
    }
  }

  lemma InPlace(a: seq<DeltaOp>, b: seq<DeltaOp>)
    ensures (a + b)[..|a|] == a && forall i | 0 <= i < |b| :: (a + b)[|a| + i] == b[i]
  {
  }

  /** After a maxVersion that did not fit, no node header fits either: it is longer. */
  lemma HeaderIsLonger(z: Zstd, mtu: nat, ops: seq<DeltaOp>, maxVersion: Version, id: ChitchatId, gc: Version, from: Version)
    requires mtu > 0 && AttemptOf(z, mtu, ops, OpSetMaxVersion(maxVersion)).Refused?
    ensures AttemptOf(z, mtu, ops, OpNode(id, gc, from)).Refused?
  {
    hide Flushed, Pending, EncodeOps;
    var t := Min(BLOCK_THRESHOLD, mtu);
    BoundIsMonotone(|Flushed(z, t, EncodeOps(ops))|, |Pending(t, EncodeOps(ops))|, t,
                    OpLen(OpSetMaxVersion(maxVersion)), OpLen(OpNode(id, gc, from)));
  }

  lemma {:induction false} OperationsConcat(a: seq<NodeDelta>, b: seq<NodeDelta>)
    ensures GetOperations(a + b) == GetOperations(a) + GetOperations(b)
  {
    if b == [] {
      assert a + b == a;
    } else {
      hide *;
      var init, d := b[..|b| - 1], b[|b| - 1];
      assert a + b == (a + init) + [d] && b == init + [d];
      OperationsOfLast(a + init, d);
      OperationsOfLast(init, d);
      OperationsConcat(a, init);
      assert (GetOperations(a) + GetOperations(init)) + NodeOps(d) == GetOperations(a) + (GetOperations(init) + NodeOps(d));
    }
  }

  lemma {:induction false} FullOfConcat(views: Views, digest: Digest, a: seq<ChitchatId>, b: seq<ChitchatId>)
    requires forall id | id in a + b :: id in views
    ensures FullNodeDeltas(views, digest, a + b) == FullNodeDeltas(views, digest, a) + FullNodeDeltas(views, digest, b)
  {
    assert forall id | id in a :: id in a + b;
    assert forall id | id in b :: id in a + b;
    var ds, es := FullNodeDeltas(views, digest, a + b), FullNodeDeltas(views, digest, a) + FullNodeDeltas(views, digest, b);
    forall i | 0 <= i < |ds| ensures ds[i] == es[i] {
    }
  }

  /** Halfway through: the nodes in `done` were written in order, those in `todo` are no staler. */
  ghost predicate OrderSoFar(views: Views, digest: Digest, ids: set<ChitchatId>, done: seq<ChitchatId>, todo: set<ChitchatId>)
    requires ids <= views.Keys
  {
    && todo <= ids
    && IsOrder(views, digest, ids - todo, done)
    && (forall i, id | 0 <= i < |done| && id in todo ::
          NoStalerThan(ScoreOf(views, digest, id), ScoreOf(views, digest, done[i])))
  }

  lemma OrderStep(views: Views, digest: Digest, ids: set<ChitchatId>, done: seq<ChitchatId>, todo: set<ChitchatId>, id: ChitchatId)
    requires ids <= views.Keys && OrderSoFar(views, digest, ids, done, todo)
    requires Stalest(views, digest, todo, id)
    ensures OrderSoFar(views, digest, ids, done + [id], todo - {id})
  {
    hide ScoreOf, NoStalerThan;
    assert forall x :: x in done + [id] <==> x in ids - (todo - {id});
  }

  lemma OrderCompletes(views: Views, digest: Digest, ids: set<ChitchatId>, done: seq<ChitchatId>, todo: set<ChitchatId>)
    returns (order: seq<ChitchatId>)
    requires ids <= views.Keys && OrderSoFar(views, digest, ids, done, todo)
    ensures IsOrder(views, digest, ids, order) && done <= order
    ensures todo == {} ==> order == done
    decreases |todo|
  {
    hide ScoreOf, NoStalerThan;
    if todo == {} {
      assert ids - todo == ids;
      order := done;
    } else {
      var id := StalestExists(views, digest, todo);
      OrderStep(views, digest, ids, done, todo, id);
      order := OrderCompletes(views, digest, ids, done + [id], todo - {id});
      assert order[..|done|] == (done + [id])[..|done|];
    }
  }

  /** What the serializer took of the nodes in `done`: all that could be taken. */
  ghost predicate TakenSoFar(z: Zstd, mtu: nat, views: Views, digest: Digest, done: seq<ChitchatId>, ops: seq<DeltaOp>,
                             progress: Progress)
    requires mtu > 0 && forall id | id in done :: id in views
  {
    Written(z, mtu, GetOperations(FullNodeDeltas(views, digest, done)), ops, progress)
  }

  lemma FullOfNext(views: Views, digest: Digest, done: seq<ChitchatId>, id: ChitchatId)
    requires id in views && forall x | x in done :: x in views
    ensures FullNodeDeltas(views, digest, done + [id]) == FullNodeDeltas(views, digest, done) + [FullNodeDelta(views, digest, id)]
  {
    assert (done + [id])[..|done|] == done;
  }

  /** The header of the next node: when it fits, everything before it was written and the builder takes it; when it
      does not, or is too long, writing ends here. */
  lemma NextHeader(z: Zstd, mtu: nat, before: seq<NodeDelta>, d: NodeDelta, ops: seq<DeltaOp>)
    requires mtu > 0 && WellFormed(before + [d])
    requires Written(z, mtu, GetOperations(before), ops, Going)
    ensures var op := OpNode(d.chitchatId, d.lastGcVersion, d.fromVersionExcluded);
            match AttemptOf(z, mtu, ops, op)
            case Added => ops == GetOperations(before) && Replay(ops).Some? && Takes(Replay(ops).value, op)
            case Refused => Written(z, mtu, GetOperations(before + [d]), ops, Stopped)
            case Panicked => Written(z, mtu, GetOperations(before + [d]), ops, Aborted)
  {
    hide GetOperations, WellFormed, AttemptOf, Replay, Takes;
    var op := OpNode(d.chitchatId, d.lastGcVersion, d.fromVersionExcluded);
    var all, base := GetOperations(before + [d]), |GetOperations(before)|;
    NodeInAll(before, d);
    if |ops| < base {
      assert all[|ops|] == all[..base][|ops|];
      HeaderIsLonger(z, mtu, ops, GetOperations(before)[|ops|].maxVersion, d.chitchatId, d.lastGcVersion, d.fromVersionExcluded);
    } else {
      assert all[..|ops|] == ops;
      BuilderNeverRefuses(before + [d], |ops|);
    }
  }

  /** Writes the header of the next node.  After a maxVersion that did not fit its header does not fit either. */
  method WriteHeader(serializer: DeltaSerializer, ghost before: seq<NodeDelta>, ghost d: NodeDelta,
                     id: ChitchatId, lastGcVersion: Version, floor: Version)
    returns (progress: Progress)
    requires serializer.Valid() && WellFormed(before + [d])
    requires id == d.chitchatId && lastGcVersion == d.lastGcVersion && floor == d.fromVersionExcluded
    requires Written(serializer.zstd, serializer.mtu, GetOperations(before), serializer.ops, Going)
    modifies serializer`ops, serializer.writer, serializer.builder
    ensures serializer.Valid()
    ensures if progress.Going? then serializer.ops == GetOperations(before) + [OpNode(id, lastGcVersion, floor)]
            else Written(serializer.zstd, serializer.mtu, GetOperations(before + [d]), serializer.ops, progress)
  {
    assert serializer.mtu >= 100;
    hide GetOperations, WellFormed, AttemptOf, DeltaSerializer.Valid, Replay, Takes, OpLen, Written;
    NextHeader(serializer.zstd, serializer.mtu, before, d, serializer.ops);
    var r := serializer.TryAddOp(OpNode(id, lastGcVersion, floor));
    match r
    case Added => return Going;
    case Refused => return Stopped;
    case Panicked => return Aborted;
  }

  lemma NodeDeltaParts(views: Views, digest: Digest, id: ChitchatId)
    requires VersionsOk(views) && id in views
    ensures VersionsBounded(views[id]) && VersionsDistinct(views[id])
    ensures var d, s, floor := FullNodeDelta(views, digest, id), views[id], FloorOf(views, digest, id);
            && d.chitchatId == id && d.lastGcVersion == s.lastGcVersion && d.fromVersionExcluded == floor
            && d.keyValues == StaleKeyValues(s, floor)
            && d.maxVersion == if d.keyValues == [] then Some(s.maxVersion) else None
  {
  }

  /** Writes a node: its header, then its entries or its maxVersion. */
  method WriteNode(serializer: DeltaSerializer, s: NodeView, id: ChitchatId, floor: Version,
                   ghost before: seq<NodeDelta>, ghost d: NodeDelta)
    returns (progress: Progress)
    requires serializer.Valid() && WellFormed(before + [d]) && VersionsBounded(s) && VersionsDistinct(s)
    requires d.chitchatId == id && d.lastGcVersion == s.lastGcVersion && d.fromVersionExcluded == floor
    requires d.keyValues == StaleKeyValues(s, floor)
    requires d.maxVersion == if d.keyValues == [] then Some(s.maxVersion) else None
    requires Written(serializer.zstd, serializer.mtu, GetOperations(before), serializer.ops, Going)
    modifies serializer`ops, serializer.writer, serializer.builder
    ensures serializer.Valid()
    ensures Written(serializer.zstd, serializer.mtu, GetOperations(before + [d]), serializer.ops, progress)
  {
    hide GetOperations, WellFormed, AttemptOf, DeltaSerializer.Valid, StaleKeyValues, Written, VersionsBounded, VersionsDistinct;
    progress := WriteHeader(serializer, before, d, id, s.lastGcVersion, floor);
    if progress.Going? {
      var ms := SortedStaleKeyValues(s, floor);
      progress := WriteEntries(serializer, before, d, ms, s.maxVersion);
    }
  }

  lemma OrderIsWellFormed(views: Views, digest: Digest, ids: set<ChitchatId>, done: seq<ChitchatId>, todo: set<ChitchatId>)
    requires ids <= views.Keys && OrderSoFar(views, digest, ids, done, todo)
    ensures WellFormed(FullNodeDeltas(views, digest, done))
  {
    FullIsWellFormed(views, digest, ids - todo, done);
  }

  lemma NothingWritten(z: Zstd, mtu: nat, views: Views, digest: Digest, ids: set<ChitchatId>)
    requires mtu > 0 && ids <= views.Keys
    ensures OrderSoFar(views, digest, ids, [], ids)
    ensures TakenSoFar(z, mtu, views, digest, [], [], Going)
  {
  }

  /** Everything that could be taken of the nodes in `done` is everything of any order that continues it. */
  lemma WrittenIsGreedy(z: Zstd, mtu: nat, views: Views, digest: Digest, done: seq<ChitchatId>, order: seq<ChitchatId>,
                        ops: seq<DeltaOp>, progress: Progress)
    requires mtu > 0 && done <= order && forall id | id in order :: id in views
    requires forall id | id in done :: id in views
    requires TakenSoFar(z, mtu, views, digest, done, ops, progress) && AllFitted(z, mtu, ops) && AllShort(ops)
    requires progress.Going? ==> order == done
    ensures var all := GetOperations(FullNodeDeltas(views, digest, order));
            && ops <= all
            && if progress.Aborted? then PanicsAt(z, mtu, all, |ops|) else TakenGreedily(z, mtu, all, |ops|)
  {
    hide Fits, GetOperations, FullNodeDelta, OpLen;
    assert order == done + order[|done|..];
    var all := GetOperations(FullNodeDeltas(views, digest, order));
    FullOfConcat(views, digest, done, order[|done|..]);
    assert forall id | id in order[|done|..] :: id in order;
    OperationsConcat(FullNodeDeltas(views, digest, done), FullNodeDeltas(views, digest, order[|done|..]));
    assert ops <= all && all[..|ops|] == ops;
    forall i | 0 <= i < |ops| ensures AttemptOf(z, mtu, all[..i], all[i]).Added? {
      assert all[..i] == ops[..i] && Fits(z, mtu, ops[..i], ops[i]);
    }
    if |ops| < |GetOperations(FullNodeDeltas(views, digest, done))| {
      assert all[|ops|] == GetOperations(FullNodeDeltas(views, digest, done))[|ops|];
    } else {
      assert order == done;
    }
  }

  /** The node deltas are of nodes that are not about to be deleted, by non-increasing staleness; each is an initial
      segment, by version, of the entries newer than its start, and all but the last are whole. */
  ghost predicate GapFree(views: Views, digest: Digest, scheduled: set<ChitchatId>, delta: Delta) {
    var ds := delta.nodeDeltas;
    && (forall i | 0 <= i < |ds| :: ds[i].chitchatId in views && ds[i].chitchatId !in scheduled)
    && (forall i | 0 <= i < |ds| ::
          var id := ds[i].chitchatId;
          && DeltaFrom(views[id], DigestGc(digest, id), DigestMax(digest, id), ds[i])
          && (i < |ds| - 1 ==> Untruncated(views[id], ds[i])))
    && (forall i, j | 0 <= i < j < |ds| ::
          NoStalerThan(ScoreOf(views, digest, ds[j].chitchatId), ScoreOf(views, digest, ds[i].chitchatId)))
  }

  /** Implements the scuttlebutt reconciliation with the scuttle-depth ordering: the nodes by staleness, ties in
      any order; the entries of each by version; up to the first operation that does not fit.  There is no delta if
      the first operation that cannot be taken fits but is too long for `append`, which panics. */
  method ComputePartialDelta(z: Zstd, views: Views, digest: Digest, mtu: nat, scheduled: set<ChitchatId>)
    returns (delta: Option<Delta>, ghost order: seq<ChitchatId>, ghost taken: nat)
    requires VersionsOk(views) && 100 <= mtu
    ensures delta.None? ==> IsOversized(z, views, digest, mtu, scheduled, order, taken)
    ensures delta.Some? ==> IsPartialDelta(z, views, digest, mtu, scheduled, order, taken, delta.value)
    ensures delta.Some? ==> GapFree(views, digest, scheduled, delta.value)
    ensures delta.Some? ==> StalestFirst(views, digest, scheduled, delta.value)
    ensures delta.Some? ==> KeepsMtu(z, mtu, delta.value)
  {
    hide GetOperations, FullNodeDelta, IsOrder, WellFormed, NoStalerThan, ScoreOf, AttemptOf,
         StaleKeyValues, TakenSoFar, OrderSoFar, VersionsOk, Cut, EncodeStream, FitBlocks, Lawful, GapFree, StalestFirst, TakenGreedily, PanicsAt,
         IsPartialDelta;
    var ids := StaleNodes(views, digest, scheduled);
    var serializer := new DeltaSerializer.WithMtu(z, mtu);
    var progress;
    progress, order := WriteNodes(serializer, views, digest, ids);
    InOrderInViews(views, digest, ids, order);
    ghost var ds := FullNodeDeltas(views, digest, order);
    taken := |serializer.ops|;
    if progress.Aborted? {
      return None, order, taken;
    }
    FullIsWellFormed(views, digest, ids, order);
    ghost var ops := serializer.ops;
    var finished := serializer.Finish();
    FinishedIsPartialDelta(z, views, digest, mtu, scheduled, order, ops, finished);
    PartialDeltasTakeTheStalest(z, views, digest, mtu, scheduled, order, taken, finished);
    return Some(finished), order, taken;
  }

  lemma FinishedIsPartialDelta(z: Zstd, views: Views, digest: Digest, mtu: nat, scheduled: set<ChitchatId>,
                               order: seq<ChitchatId>, ops: seq<DeltaOp>, delta: Delta)
    requires mtu > 0 && IsOrder(views, digest, StaleNodes(views, digest, scheduled), order)
    requires var ds := FullNodeDeltas(views, digest, order);
             && WellFormed(ds) && ops <= GetOperations(ds) && TakenGreedily(z, mtu, GetOperations(ds), |ops|)
    requires Replay(ops).Some? ==> delta == Delta(Build(ops).value, |FinishedPayload(z, mtu, ops)|)
    ensures IsPartialDelta(z, views, digest, mtu, scheduled, order, |ops|, delta)
    ensures GapFree(views, digest, scheduled, delta) && GetOperations(delta.nodeDeltas) == ops
  {
    hide GetOperations, FullNodeDelta, FullNodeDeltas, IsOrder, WellFormed, TakenGreedily, EncodeStream, GapFree, Replay, Cut, StaleNodes,
         NoStalerThan, ScoreOf, DeltaFrom, Untruncated;
    InOrderInViews(views, digest, StaleNodes(views, digest, scheduled), order);
    var ds := FullNodeDeltas(views, digest, order);
    assert GetOperations(ds)[..|ops|] == ops;
    BuilderNeverRefuses(ds, |ops|);
    CutOperations(ds, |ops|);
    PartialDeltasAreGapFree(z, views, digest, mtu, scheduled, order, |ops|, delta);
  }

  /** Writes the nodes `ids`, stalest first. */
  method WriteNodes(serializer: DeltaSerializer, views: Views, digest: Digest, ids: set<ChitchatId>)
    returns (progress: Progress, ghost order: seq<ChitchatId>)
    requires serializer.Valid() && serializer.ops == [] && VersionsOk(views) && ids <= views.Keys
    modifies serializer`ops, serializer.writer, serializer.builder
    ensures serializer.Valid()
    ensures IsOrder(views, digest, ids, order) && forall id | id in order :: id in views
    ensures var all := GetOperations(FullNodeDeltas(views, digest, order));
            && serializer.ops <= all
            && if progress.Aborted? then PanicsAt(serializer.zstd, serializer.mtu, all, |serializer.ops|)
               else TakenGreedily(serializer.zstd, serializer.mtu, all, |serializer.ops|)
  {
    assert serializer.mtu >= 100;
    ghost var z, mtu := serializer.zstd, serializer.mtu;
    hide GetOperations, FullNodeDelta, FullNodeDeltas, IsOrder, WellFormed, NoStalerThan, ScoreOf, AttemptOf, TakenGreedily, PanicsAt,
         StaleKeyValues, Written, OrderSoFar, VersionsOk, EncodeStream, DeltaSerializer.Valid, FloorOf;
    ghost var done: seq<ChitchatId> := [];
    var todo := ids;
    progress := Going;
    NothingWritten(z, mtu, views, digest, ids);
    while todo != {} && progress.Going?
      invariant serializer.Valid()
      invariant todo <= ids && OrderSoFar(views, digest, ids, done, todo)
      invariant forall id | id in done :: id in views
      invariant TakenSoFar(z, mtu, views, digest, done, serializer.ops, progress)
      decreases todo
    {
      ghost var top := StalestExists(views, digest, todo);
      var id :| Stalest(views, digest, todo, id);
      OrderStep(views, digest, ids, done, todo, id);
      OrderIsWellFormed(views, digest, ids, done + [id], todo - {id});
      NodeDeltaParts(views, digest, id);
      FullOfNext(views, digest, done, id);
      progress := WriteNode(serializer, views[id], id, FloorOf(views, digest, id),
                            FullNodeDeltas(views, digest, done), FullNodeDelta(views, digest, id));
      done := done + [id];
      todo := todo - {id};
    }
    order := OrderCompletes(views, digest, ids, done, todo);
    InOrderInViews(views, digest, ids, order);
    WhatItTook(serializer);
    WrittenIsGreedy(z, mtu, views, digest, done, order, serializer.ops, progress);
  }

  lemma WhatItTook(serializer: DeltaSerializer)
    requires serializer.Valid()
    ensures serializer.mtu > 0 && AllFitted(serializer.zstd, serializer.mtu, serializer.ops) && AllShort(serializer.ops)
  {
  }

  /** The length of a delta keeps to the MTU if its operations fit blocks, and exceeds it by nine bytes at most. */
  ghost predicate KeepsMtu(z: Zstd, mtu: nat, delta: Delta) {
    && (Lawful(z) && FitBlocks(BLOCK_THRESHOLD, GetOperations(delta.nodeDeltas)) ==> delta.serializedLen <= mtu)
    && (Lawful(z) ==> delta.serializedLen <= mtu + EXCESS)
  }

  lemma InOrderInViews(views: Views, digest: Digest, ids: set<ChitchatId>, order: seq<ChitchatId>)
    requires ids <= views.Keys && IsOrder(views, digest, ids, order)
    ensures forall id | id in order :: id in views
  {
  }

  // ---------- what a computed delta promises ----------

  /** `delta` is a partial delta for the digest: there are an order of the stale nodes and a number of operations
      taken that account for it. */
  ghost predicate IsPartialDelta(z: Zstd, views: Views, digest: Digest, mtu: nat, scheduled: set<ChitchatId>,
                                 order: seq<ChitchatId>, taken: nat, delta: Delta)
    requires mtu > 0
  {
    && IsOrder(views, digest, StaleNodes(views, digest, scheduled), order)
    && var ds := FullNodeDeltas(views, digest, order);
       && TakenGreedily(z, mtu, GetOperations(ds), taken)
       && delta == Delta(Cut(ds, taken), |FinishedPayload(z, mtu, GetOperations(ds)[..taken])|)
  }

  /** The computation of a delta for the digest panics at operation `taken`. */
  ghost predicate IsOversized(z: Zstd, views: Views, digest: Digest, mtu: nat, scheduled: set<ChitchatId>,
                              order: seq<ChitchatId>, taken: nat)
    requires mtu > 0
  {
    && IsOrder(views, digest, StaleNodes(views, digest, scheduled), order)
    && PanicsAt(z, mtu, GetOperations(FullNodeDeltas(views, digest, order)), taken)
  }

  lemma FullIsADelta(views: Views, digest: Digest, id: ChitchatId)
    requires id in views && views[id].maxVersion > DigestMax(digest, id)
    ensures DeltaFrom(views[id], DigestGc(digest, id), DigestMax(digest, id), FullNodeDelta(views, digest, id))
    ensures Untruncated(views[id], FullNodeDelta(views, digest, id))
  {
  }

  /** Partial deltas have no gaps.  They list nodes that are not about to be deleted, by non-increasing staleness;
      each node delta is an initial segment, by version, of the entries newer than its start; every one but the
      last is whole, and the last too when nothing was refused. */
  lemma PartialDeltasAreGapFree(z: Zstd, views: Views, digest: Digest, mtu: nat, scheduled: set<ChitchatId>,
                                order: seq<ChitchatId>, taken: nat, delta: Delta)
    requires mtu > 0 && IsPartialDelta(z, views, digest, mtu, scheduled, order, taken, delta)
    ensures |delta.nodeDeltas| <= |order|
    ensures forall i | 0 <= i < |delta.nodeDeltas| ::
              var d := delta.nodeDeltas[i];
              && d.chitchatId == order[i] && d.chitchatId in views && d.chitchatId !in scheduled
              && DeltaFrom(views[order[i]], DigestGc(digest, order[i]), DigestMax(digest, order[i]), d)
              && (i < |delta.nodeDeltas| - 1 || taken == |GetOperations(FullNodeDeltas(views, digest, order))| ==>
                    Untruncated(views[order[i]], d))
    ensures forall i, j | 0 <= i < j < |delta.nodeDeltas| ::
              NoStalerThan(ScoreOf(views, digest, order[j]), ScoreOf(views, digest, order[i]))
    ensures taken == |GetOperations(FullNodeDeltas(views, digest, order))| ==> |delta.nodeDeltas| == |order|
    ensures GapFree(views, digest, scheduled, delta)
  {
    hide GetOperations, FullNodeDeltas, NoStalerThan, ScoreOf, IsPartialDelta, Untruncated, DeltaFrom;
    DeltaCounts(z, views, digest, mtu, scheduled, order, taken, delta);
    IsInOrder(z, views, digest, mtu, scheduled, order, taken, delta);
    forall i | 0 <= i < |delta.nodeDeltas|
      ensures order[i] in views && order[i] !in scheduled
      ensures delta.nodeDeltas[i].chitchatId == order[i]
      ensures DeltaFrom(views[order[i]], DigestGc(digest, order[i]), DigestMax(digest, order[i]), delta.nodeDeltas[i])
      ensures i < |delta.nodeDeltas| - 1 || taken == |GetOperations(FullNodeDeltas(views, digest, order))| ==>
                Untruncated(views[order[i]], delta.nodeDeltas[i])
    {
      EachIsASegment(z, views, digest, mtu, scheduled, order, taken, delta, i);
    }
  }

  lemma DeltaCounts(z: Zstd, views: Views, digest: Digest, mtu: nat, scheduled: set<ChitchatId>,
                    order: seq<ChitchatId>, taken: nat, delta: Delta)
    requires mtu > 0 && IsPartialDelta(z, views, digest, mtu, scheduled, order, taken, delta)
    ensures forall id | id in order :: id in views
    ensures |delta.nodeDeltas| <= |order|
    ensures taken == |GetOperations(FullNodeDeltas(views, digest, order))| ==> |delta.nodeDeltas| == |order|
  {
    hide GetOperations, NoStalerThan, ScoreOf, TakenGreedily, EncodeStream, Cut;
    CutIsCut(FullNodeDeltas(views, digest, order), taken);
  }

  lemma EachIsASegment(z: Zstd, views: Views, digest: Digest, mtu: nat, scheduled: set<ChitchatId>,
                       order: seq<ChitchatId>, taken: nat, delta: Delta, i: nat)
    requires mtu > 0 && IsPartialDelta(z, views, digest, mtu, scheduled, order, taken, delta)
    requires i < |delta.nodeDeltas| <= |order| && forall id | id in order :: id in views
    ensures order[i] in views && order[i] !in scheduled && delta.nodeDeltas[i].chitchatId == order[i]
    ensures DeltaFrom(views[order[i]], DigestGc(digest, order[i]), DigestMax(digest, order[i]), delta.nodeDeltas[i])
    ensures i < |delta.nodeDeltas| - 1 || taken == |GetOperations(FullNodeDeltas(views, digest, order))| ==>
              Untruncated(views[order[i]], delta.nodeDeltas[i])
  {
    hide GetOperations, NoStalerThan, ScoreOf, TakenGreedily, EncodeStream, StaleNodes, Cut, Untruncated, DeltaFrom, FloorOf;
    var ds := FullNodeDeltas(views, digest, order);
    CutIsCut(ds, taken);
    assert order[i] in order;
    StaleNodeHasNews(views, digest, scheduled, order[i]);
    FullIsADelta(views, digest, order[i]);
    assert ds[i] == FullNodeDelta(views, digest, order[i]);
    SegmentIsADelta(views, digest, order[i], delta.nodeDeltas[i]);
  }

  /** Who comes first, in terms of the two states and the digest: who has to be sent from the start, among these the
      lowest maxVersion; then whoever has the most entries that are newer than its start. */
  ghost predicate GoesFirst(views: Views, digest: Digest, a: ChitchatId, b: ChitchatId)
    requires a in views && b in views
  {
    var startA := FromVersion(views[a].lastGcVersion, DigestGc(digest, a), DigestMax(digest, a));
    var startB := FromVersion(views[b].lastGcVersion, DigestGc(digest, b), DigestMax(digest, b));
    && (startB == 0 ==> startA == 0)
    && (startA == 0 && startB == 0 ==> views[a].maxVersion <= views[b].maxVersion)
    && (startA > 0 && startB > 0 ==> |StaleKeyValues(views[b], startB)| <= |StaleKeyValues(views[a], startA)|)
  }

  /** Of the nodes with news for the peer, those in the delta come in order, and before all that were left out. */
  ghost predicate StalestFirst(views: Views, digest: Digest, scheduled: set<ChitchatId>, delta: Delta) {
    var ds := delta.nodeDeltas;
    && (forall i | 0 <= i < |ds| :: ds[i].chitchatId in views)
    && (forall i, j | 0 <= i < j < |ds| :: GoesFirst(views, digest, ds[i].chitchatId, ds[j].chitchatId))
    && (forall i, b | 0 <= i < |ds| && b in views && b !in scheduled && DigestMax(digest, b) < views[b].maxVersion ::
          (exists j :: 0 <= j < |ds| && ds[j].chitchatId == b) || GoesFirst(views, digest, ds[i].chitchatId, b))
  }

  /** There are as many stale entries as the sort lists. */
  lemma StaleCount(s: NodeView, floor: Version)
    requires VersionsBounded(s) && VersionsDistinct(s)
    ensures |StaleKeyValues(s, floor)| == |set k | k in s.keyValues && s.keyValues[k].version > floor|
  {
    var stale := StaleKeyValues(s, floor);
    SliceElements(s.keyValues, floor, s.maxVersion);
    forall i, j | 0 <= i < j < |stale| ensures stale[i].key != stale[j].key {
      assert stale[i] in stale && stale[j] in stale;
    }
    CountKeys(stale);
    var listed, newer := set m | m in stale :: m.key, set k | k in s.keyValues && s.keyValues[k].version > floor;
    forall k | k in newer ensures k in listed {
      SliceContains(s.keyValues, floor, s.maxVersion, k);
    }
    assert listed == newer;
  }

  lemma {:induction false} CountKeys(ms: seq<KeyValueMutation>)
    requires forall i, j | 0 <= i < j < |ms| :: ms[i].key != ms[j].key
    ensures |set m | m in ms :: m.key| == |ms|
  {
    if ms != [] {
      var init, last := ms[..|ms| - 1], ms[|ms| - 1];
      CountKeys(init);
      assert ms == init + [last];
      assert (set m | m in ms :: m.key) == (set m | m in init :: m.key) + {last.key};
    }
  }

  lemma ScoresGoFirst(views: Views, digest: Digest, a: ChitchatId, b: ChitchatId)
    requires a in views && b in views && VersionsOk(views)
    requires NoStalerThan(ScoreOf(views, digest, b), ScoreOf(views, digest, a))
    ensures GoesFirst(views, digest, a, b)
  {
    hide StaleKeyValues;
    StaleCount(views[a], FloorOf(views, digest, a));
    StaleCount(views[b], FloorOf(views, digest, b));
  }

  /** The nodes of a delta go by who comes first, and none with news is left out for one that comes after it. */
  lemma PartialDeltasTakeTheStalest(z: Zstd, views: Views, digest: Digest, mtu: nat, scheduled: set<ChitchatId>,
                                    order: seq<ChitchatId>, taken: nat, delta: Delta)
    requires mtu > 0 && VersionsOk(views) && IsPartialDelta(z, views, digest, mtu, scheduled, order, taken, delta)
    ensures StalestFirst(views, digest, scheduled, delta)
  {
    hide NoStalerThan, ScoreOf, GoesFirst, IsPartialDelta, DeltaFrom, Untruncated, GetOperations, FullNodeDeltas, VersionsOk;
    var ds := delta.nodeDeltas;
    PartialDeltasAreGapFree(z, views, digest, mtu, scheduled, order, taken, delta);
    IsInOrder(z, views, digest, mtu, scheduled, order, taken, delta);
    forall i, j | 0 <= i < j < |ds| ensures GoesFirst(views, digest, ds[i].chitchatId, ds[j].chitchatId) {
      ScoresGoFirst(views, digest, ds[i].chitchatId, ds[j].chitchatId);
    }
    forall i, b | 0 <= i < |ds| && b in views && b !in scheduled && DigestMax(digest, b) < views[b].maxVersion
      ensures (exists j :: 0 <= j < |ds| && ds[j].chitchatId == b) || GoesFirst(views, digest, ds[i].chitchatId, b)
    {
      var j :| 0 <= j < |order| && order[j] == b;
      if j < |ds| {
        assert ds[j].chitchatId == b;
      } else {
        assert ds[i].chitchatId == order[i];
        ScoresGoFirst(views, digest, order[i], order[j]);
      }
    }
  }

  /** The order lists the nodes with news, no staler one after another. */
  lemma IsInOrder(z: Zstd, views: Views, digest: Digest, mtu: nat, scheduled: set<ChitchatId>,
                  order: seq<ChitchatId>, taken: nat, delta: Delta)
    requires mtu > 0 && IsPartialDelta(z, views, digest, mtu, scheduled, order, taken, delta)
    ensures forall id :: id in order <==> id in views && id !in scheduled && DigestMax(digest, id) < views[id].maxVersion
    ensures forall i, j | 0 <= i < j < |order| :: NoStalerThan(ScoreOf(views, digest, order[j]), ScoreOf(views, digest, order[i]))
  {
    hide NoStalerThan, ScoreOf, GetOperations, FullNodeDeltas, TakenGreedily;
  }

  lemma StaleNodeHasNews(views: Views, digest: Digest, scheduled: set<ChitchatId>, id: ChitchatId)
    requires id in StaleNodes(views, digest, scheduled)
    ensures id in views && id !in scheduled && views[id].maxVersion > DigestMax(digest, id)
  {
  }

  lemma SegmentIsADelta(views: Views, digest: Digest, id: ChitchatId, d: NodeDelta)
    requires id in views && views[id].maxVersion > DigestMax(digest, id)
    requires var whole := FullNodeDelta(views, digest, id);
             && d.lastGcVersion == whole.lastGcVersion && d.fromVersionExcluded == whole.fromVersionExcluded
             && d.keyValues <= whole.keyValues && (d.maxVersion == None || d == whole)
    ensures DeltaFrom(views[id], DigestGc(digest, id), DigestMax(digest, id), d)
  {
  }

  /** A computed delta survives the wire: its own serialization has the announced length and reads back equal. */
  lemma PartialDeltaRoundTrip(z: Zstd, views: Views, digest: Digest, mtu: nat, scheduled: set<ChitchatId>,
                              order: seq<ChitchatId>, taken: nat, delta: Delta, tail: seq<byte>)
    requires Lawful(z) && mtu > 0 && VersionsOk(views)
    requires IsPartialDelta(z, views, digest, mtu, scheduled, order, taken, delta)
    requires forall op | op in GetOperations(delta.nodeDeltas) :: EncodableOp(op)
    ensures var payload := EncodeStream(z, BLOCK_THRESHOLD, EncodeOps(GetOperations(delta.nodeDeltas)));
            |payload| == delta.serializedLen && DecodeDelta(z, payload + tail) == Parsed(delta, tail)
  {
    hide EncodeStream, GetOperations, DecodeDelta, TakenGreedily, FullNodeDeltas, EncodeOps, AllFitted;
    var ds := FullNodeDeltas(views, digest, order);
    TakenFitted(z, mtu, GetOperations(ds), taken);
    var ops := GetOperations(ds)[..taken];
    FullIsWellFormed(views, digest, StaleNodes(views, digest, scheduled), order);
    BuilderNeverRefuses(ds, taken);
    CutOperations(ds, taken);
    DeltaRoundTrip(z, mtu, ops, tail);
  }

  lemma TakenFitted(z: Zstd, mtu: nat, all: seq<DeltaOp>, n: nat)
    requires mtu > 0 && TakenGreedily(z, mtu, all, n)
    ensures n <= |all| && AllFitted(z, mtu, all[..n])
  {
    hide Fits, OpLen;
    forall i | 0 <= i < n ensures Fits(z, mtu, all[..n][..i], all[..n][i]) {
      assert all[..n][..i] == all[..i] && AttemptOf(z, mtu, all[..i], all[i]).Added?;
    }
  }
}
