/** Deltas as sequences of operations: the builder that replays operations, the serializer that stays
    within an MTU, and the round trip between the two. */
module Deltas {
  import opened Types
  import opened NodeStates
  import opened Codecs
  import opened Streams

  datatype Delta = Delta(nodeDeltas: seq<NodeDelta>, serializedLen: nat)

  // ---------- a delta as operations ----------

  function KeyValueOps(ms: seq<KeyValueMutation>): (ops: seq<DeltaOp>)
    ensures |ops| == |ms| && forall i | 0 <= i < |ms| :: ops[i] == OpKeyValue(ms[i])
  {
    seq(|ms|, i requires 0 <= i < |ms| => OpKeyValue(ms[i]))
  }

  function NodeOps(d: NodeDelta): seq<DeltaOp> {
    [OpNode(d.chitchatId, d.lastGcVersion, d.fromVersionExcluded)]
    + KeyValueOps(d.keyValues)
    + match d.maxVersion { case None => [] case Some(v) => [OpSetMaxVersion(v)] }
  }

  function GetOperations(ds: seq<NodeDelta>): seq<DeltaOp> {
    if ds == [] then [] else GetOperations(ds[..|ds| - 1]) + NodeOps(ds[|ds| - 1])
  }

  // ---------- the builder ----------

  datatype BuilderView = BuilderView(
    existingNodes: set<ChitchatId>,
    nodeDeltas: seq<NodeDelta>,
    currentNodeDelta: Option<NodeDelta>)

  const EMPTY_BUILDER := BuilderView({}, [], None)

  function Flush(b: BuilderView): BuilderView {
    match b.currentNodeDelta
    case None => b
    case Some(d) => b.(nodeDeltas := b.nodeDeltas + [d], currentNodeDelta := None)
  }

  /** Whether the builder takes the operation. */
  predicate Takes(b: BuilderView, op: DeltaOp) {
    match op
    case OpNode(id, _, _) => id !in b.existingNodes
    case OpKeyValue(m) =>
      && b.currentNodeDelta.Some?
      && var kvs := b.currentNodeDelta.value.keyValues;
         (kvs != [] ==> kvs[|kvs| - 1].version < m.version)
    case OpSetMaxVersion(_) => b.currentNodeDelta.Some?
  }

  /** The builder after an operation; a refused node operation still closes the node before it. */
  function ApplyOp(b: BuilderView, op: DeltaOp): BuilderView {
    match op
    case OpNode(id, gc, from) =>
      var f := Flush(b);
      if id in b.existingNodes then f
      else f.(existingNodes := f.existingNodes + {id},
              currentNodeDelta := Some(NodeDelta(id, from, gc, [], None)))
    case OpKeyValue(m) =>
      if !Takes(b, op) then b
      else
        var d := b.currentNodeDelta.value;
        b.(currentNodeDelta := Some(d.(keyValues := d.keyValues + [m])))
    case OpSetMaxVersion(v) =>
      if !Takes(b, op) then b
      else b.(currentNodeDelta := Some(b.currentNodeDelta.value.(maxVersion := Some(v))))
  }

  /** The builder after all the operations, provided it takes every one of them. */
  function Replay(ops: seq<DeltaOp>): Option<BuilderView> {
    if ops == [] then Some(EMPTY_BUILDER)
    else
      match Replay(ops[..|ops| - 1])
      case None => None
      case Some(b) => if Takes(b, ops[|ops| - 1]) then Some(ApplyOp(b, ops[|ops| - 1])) else None
  }

  function Build(ops: seq<DeltaOp>): Option<seq<NodeDelta>> {
    match Replay(ops)
    case None => None
    case Some(b) => Some(Flush(b).nodeDeltas)
  }

  class DeltaBuilder {
    var existingNodes: set<ChitchatId>
    var nodeDeltas: seq<NodeDelta>
    var currentNodeDelta: Option<NodeDelta>

    function View(): BuilderView
      reads this
    {
      BuilderView(existingNodes, nodeDeltas, currentNodeDelta)
    }

    constructor ()
      ensures View() == EMPTY_BUILDER
    {
      existingNodes, nodeDeltas, currentNodeDelta := {}, [], None;
    }

    method FlushCurrent()
      modifies this
      ensures View() == Flush(old(View()))
    {
      if currentNodeDelta.None? {
        return;
      }
      nodeDeltas := nodeDeltas + [currentNodeDelta.value];
      currentNodeDelta := None;
    }

    method Apply(op: DeltaOp) returns (ok: bool)
      modifies this
      ensures ok == Takes(old(View()), op)
      ensures View() == ApplyOp(old(View()), op)
    {
      match op {
        case OpNode(id, gc, from) =>
          FlushCurrent();
          if id in existingNodes {
            return false;
          }
          existingNodes := existingNodes + {id};
          currentNodeDelta := Some(NodeDelta(id, from, gc, [], None));
        case OpKeyValue(m) =>
          if currentNodeDelta.None? {
            return false;
          }
          var d := currentNodeDelta.value;
          if |d.keyValues| > 0 {
            if d.keyValues[|d.keyValues| - 1].version >= m.version {
              return false;
            }
          }
          currentNodeDelta := Some(d.(keyValues := d.keyValues + [m]));
        case OpSetMaxVersion(v) =>
          if currentNodeDelta.None? {
            return false;
          }
          currentNodeDelta := Some(currentNodeDelta.value.(maxVersion := Some(v)));
      }
      return true;
    }

    method Finish(len: nat) returns (delta: Delta)
      modifies this
      ensures delta == Delta(Flush(old(View())).nodeDeltas, len)
    {
      FlushCurrent();
      delta := Delta(nodeDeltas, len);
    }
  }

  // ---------- what the builder accepts ----------

  /** What every delta that parses looks like: distinct nodes, increasing versions in each. */
  predicate WellFormed(ds: seq<NodeDelta>) {
    && (forall i, j | 0 <= i < j < |ds| :: ds[i].chitchatId != ds[j].chitchatId)
    && (forall d | d in ds :: StrictlyIncreasing(d.keyValues))
  }

  predicate HasNode(ds: seq<NodeDelta>, id: ChitchatId) {
    exists i :: 0 <= i < |ds| && ds[i].chitchatId == id
  }

  ghost predicate BuilderInvariant(b: BuilderView) {
    && WellFormed(Flush(b).nodeDeltas)
    && forall id {:trigger HasNode(Flush(b).nodeDeltas, id)} :: id in b.existingNodes <==> HasNode(Flush(b).nodeDeltas, id)
  }

  lemma ApplyOpKeepsInvariant(b: BuilderView, op: DeltaOp)
    requires BuilderInvariant(b) && Takes(b, op)
    ensures BuilderInvariant(ApplyOp(b, op))
  {
    var before, after := Flush(b).nodeDeltas, Flush(ApplyOp(b, op)).nodeDeltas;
    if op.OpNode? {
      var d := NodeDelta(op.chitchatId, op.fromVersionExcluded, op.lastGcVersion, [], None);
      assert after == before + [d];
      forall i | 0 <= i < |before| ensures before[i].chitchatId != d.chitchatId {
        assert HasNode(before, before[i].chitchatId);
      }
      forall id ensures id in ApplyOp(b, op).existingNodes <==> HasNode(after, id) {
        if HasNode(before, id) {
          var i :| 0 <= i < |before| && before[i].chitchatId == id;
          assert after[i].chitchatId == id;
        }
        assert after[|before|].chitchatId == d.chitchatId;
        assert HasNode(after, id) ==> HasNode(before, id) || id == d.chitchatId;
      }
    } else {
      var d' := ApplyOp(b, op).currentNodeDelta.value;
      ReplaceLast(before, d');
      assert after == before[..|before| - 1] + [d'];
    }
  }

  lemma ReplaceLast(ds: seq<NodeDelta>, d: NodeDelta)
    requires WellFormed(ds) && ds != []
    requires d.chitchatId == ds[|ds| - 1].chitchatId && StrictlyIncreasing(d.keyValues)
    ensures var es := ds[..|ds| - 1] + [d]; WellFormed(es) && forall id :: HasNode(es, id) <==> HasNode(ds, id)
  {
    var es := ds[..|ds| - 1] + [d];
    forall x | x in es ensures StrictlyIncreasing(x.keyValues) {
      assert x == d || x in ds;
    }
    assert forall i | 0 <= i < |ds| :: es[i].chitchatId == ds[i].chitchatId;
  }

  /** Every sequence of operations the builder accepts yields distinct nodes and increasing versions. */
  lemma {:induction false} BuildIsWellFormed(ops: seq<DeltaOp>)
    requires Replay(ops).Some?
    ensures BuilderInvariant(Replay(ops).value)
    ensures WellFormed(Build(ops).value)
  {
    if ops != [] {
      BuildIsWellFormed(ops[..|ops| - 1]);
      ApplyOpKeepsInvariant(Replay(ops[..|ops| - 1]).value, ops[|ops| - 1]);
    }
  }

  /** After a maxVersion only a new node may come. */
  predicate MaxVersionEndsNode(ops: seq<DeltaOp>) {
    forall i | 0 < i < |ops| :: ops[i - 1].OpSetMaxVersion? ==> ops[i].OpNode?
  }

  lemma {:induction false} OperationsEndNodes(ds: seq<NodeDelta>)
    ensures MaxVersionEndsNode(GetOperations(ds))
    ensures ds != [] ==> GetOperations(ds) != [] && GetOperations(ds)[0].OpNode?
  {
    if ds != [] {
      OperationsEndNodes(ds[..|ds| - 1]);
    }
  }

  lemma OperationsOfLast(ds: seq<NodeDelta>, d: NodeDelta)
    ensures GetOperations(ds + [d]) == GetOperations(ds) + NodeOps(d)
  {
    assert (ds + [d])[..|ds|] == ds;
  }

  lemma OpIsSpelledOut(b: BuilderView, op: DeltaOp)
    requires Takes(b, op)
    requires op.OpNode? || b.currentNodeDelta.value.maxVersion.None?
    ensures GetOperations(Flush(ApplyOp(b, op)).nodeDeltas) == GetOperations(Flush(b).nodeDeltas) + [op]
  {
    hide GetOperations;
    if op.OpNode? {
      OperationsOfLast(Flush(b).nodeDeltas, ApplyOp(b, op).currentNodeDelta.value);
    } else {
      hide NodeOps;
      var d, e := b.currentNodeDelta.value, ApplyOp(b, op).currentNodeDelta.value;
      OperationsOfLast(b.nodeDeltas, d);
      OperationsOfLast(b.nodeDeltas, e);
      LastOpOfNode(d, e, op);
      assert GetOperations(b.nodeDeltas) + (NodeOps(d) + [op]) == GetOperations(b.nodeDeltas) + NodeOps(d) + [op];
    }
  }

  lemma LastOpOfNode(d: NodeDelta, e: NodeDelta, op: DeltaOp)
    requires d.maxVersion.None?
    requires match op
             case OpNode(_, _, _) => false
             case OpKeyValue(m) => e == d.(keyValues := d.keyValues + [m])
             case OpSetMaxVersion(v) => e == d.(maxVersion := Some(v))
    ensures NodeOps(e) == NodeOps(d) + [op]
  {
    if op.OpKeyValue? {
      assert KeyValueOps(e.keyValues) == KeyValueOps(d.keyValues) + [op];
    }
  }

  lemma {:induction false} OpenNodeHasMaxVersion(ops: seq<DeltaOp>)
    requires Replay(ops).Some? && MaxVersionEndsNode(ops)
    ensures Replay(ops).value.currentNodeDelta.None? <==> ops == []
    ensures ops != [] ==> (Replay(ops).value.currentNodeDelta.value.maxVersion.Some? <==> ops[|ops| - 1].OpSetMaxVersion?)
  {
    if ops != [] {
      var init := ops[..|ops| - 1];
      OpenNodeHasMaxVersion(init);
      if init != [] {
        assert init[|init| - 1] == ops[|ops| - 2];
      }
    }
  }

  lemma LastStepOf(ops: seq<DeltaOp>)
    requires Replay(ops).Some? && ops != []
    ensures Replay(ops[..|ops| - 1]).Some? && Takes(Replay(ops[..|ops| - 1]).value, ops[|ops| - 1])
    ensures Replay(ops).value == ApplyOp(Replay(ops[..|ops| - 1]).value, ops[|ops| - 1])
  {
  }

  lemma LastOpMaySpell(ops: seq<DeltaOp>)
    requires Replay(ops).Some? && ops != [] && MaxVersionEndsNode(ops)
    ensures MaxVersionEndsNode(ops[..|ops| - 1])
    ensures ops[|ops| - 1].OpNode?
            || Replay(ops[..|ops| - 1]).value.currentNodeDelta.value.maxVersion.None?
  {
    hide Replay;
    var init := ops[..|ops| - 1];
    LastStepOf(ops);
    OpenNodeHasMaxVersion(init);
    if init != [] {
      assert init[|init| - 1] == ops[|ops| - 2];
    }
  }

  lemma {:induction false} ReplayKeepsOperations(ops: seq<DeltaOp>)
    requires Replay(ops).Some? && MaxVersionEndsNode(ops)
    ensures GetOperations(Flush(Replay(ops).value).nodeDeltas) == ops
  {
    if ops != [] {
      hide *;
      var init, op := ops[..|ops| - 1], ops[|ops| - 1];
      LastStepOf(ops);
      LastOpMaySpell(ops);
      ReplayKeepsOperations(init);
      OpIsSpelledOut(Replay(init).value, op);
      assert init + [op] == ops;
    }
  }

  /** A built delta spells out the very operations it was built from exactly when none of them follows a
      maxVersion of the same node. */
  lemma OperationsComeBackExactly(ops: seq<DeltaOp>)
    requires Replay(ops).Some?
    ensures GetOperations(Build(ops).value) == ops <==> MaxVersionEndsNode(ops)
  {
    OperationsEndNodes(Build(ops).value);
    if MaxVersionEndsNode(ops) {
      ReplayKeepsOperations(ops);
    }
  }

  lemma ReplayOneMore(ops: seq<DeltaOp>, op: DeltaOp)
    requires Replay(ops).Some?
    ensures Replay(ops + [op]) == if Takes(Replay(ops).value, op) then Some(ApplyOp(Replay(ops).value, op)) else None
  {
    assert (ops + [op])[..|ops|] == ops;
  }

  lemma MutationIsTaken(b: BuilderView, d: NodeDelta, n: nat)
    requires StrictlyIncreasing(d.keyValues) && 0 < n <= |d.keyValues|
    ensures var before, op := b.(currentNodeDelta := Some(d.(keyValues := d.keyValues[..n - 1], maxVersion := None))),
                              OpKeyValue(d.keyValues[n - 1]);
            && Takes(before, op)
            && ApplyOp(before, op) == b.(currentNodeDelta := Some(d.(keyValues := d.keyValues[..n], maxVersion := None)))
  {
    assert d.keyValues[..n - 1] + [d.keyValues[n - 1]] == d.keyValues[..n];
  }

  lemma {:induction false} MutationsReplay(ops: seq<DeltaOp>, d: NodeDelta, n: nat)
    requires Replay(ops).Some? && Replay(ops).value.currentNodeDelta == Some(d.(keyValues := [], maxVersion := None))
    requires StrictlyIncreasing(d.keyValues) && n <= |d.keyValues|
    ensures Replay(ops + KeyValueOps(d.keyValues[..n]))
            == Some(Replay(ops).value.(currentNodeDelta := Some(d.(keyValues := d.keyValues[..n], maxVersion := None))))
  {
    if n == 0 {
      assert ops + KeyValueOps(d.keyValues[..0]) == ops;
    } else {
      hide Replay, KeyValueOps, Takes, ApplyOp, StrictlyIncreasing;
      MutationsReplay(ops, d, n - 1);
      var before, m := ops + KeyValueOps(d.keyValues[..n - 1]), d.keyValues[n - 1];
      MutationIsTaken(Replay(ops).value, d, n);
      ReplayOneMore(before, OpKeyValue(m));
      OneMoreMutation(ops, d.keyValues, n);
    }
  }

  lemma OneMoreMutation(ops: seq<DeltaOp>, ms: seq<KeyValueMutation>, n: nat)
    requires 0 < n <= |ms|
    ensures ops + KeyValueOps(ms[..n]) == (ops + KeyValueOps(ms[..n - 1])) + [OpKeyValue(ms[n - 1])]
  {
  }

  lemma NodeReplays(ops: seq<DeltaOp>, d: NodeDelta)
    requires Replay(ops).Some? && d.chitchatId !in Replay(ops).value.existingNodes
    requires StrictlyIncreasing(d.keyValues)
    ensures var b := Replay(ops).value;
            Replay(ops + NodeOps(d)) == Some(BuilderView(b.existingNodes + {d.chitchatId}, Flush(b).nodeDeltas, Some(d)))
  {
    hide Replay, KeyValueOps;
    var node := OpNode(d.chitchatId, d.lastGcVersion, d.fromVersionExcluded);
    ReplayOneMore(ops, node);
    MutationsReplay(ops + [node], d, |d.keyValues|);
    assert d.keyValues[..|d.keyValues|] == d.keyValues;
    var body := ops + [node] + KeyValueOps(d.keyValues);
    if d.maxVersion.Some? {
      ReplayOneMore(body, OpSetMaxVersion(d.maxVersion.value));
      assert ops + NodeOps(d) == body + [OpSetMaxVersion(d.maxVersion.value)];
    } else {
      assert ops + NodeOps(d) == body;
    }
  }

  lemma FreshNode(ops: seq<DeltaOp>, ds: seq<NodeDelta>, d: NodeDelta)
    requires WellFormed(ds + [d])
    requires Replay(ops).Some? && Flush(Replay(ops).value).nodeDeltas == ds
    ensures d.chitchatId !in Replay(ops).value.existingNodes
    ensures WellFormed(ds) && StrictlyIncreasing(d.keyValues)
  {
    hide Replay;
    var all := ds + [d];
    BuildIsWellFormed(ops);
    assert d in all;
    forall i | 0 <= i < |ds| ensures ds[i].chitchatId != d.chitchatId {
      assert all[i] == ds[i] && all[|ds|] == d;
    }
    assert !HasNode(ds, d.chitchatId);
  }

  lemma WellFormedInit(ds: seq<NodeDelta>)
    requires WellFormed(ds) && ds != []
    ensures WellFormed(ds[..|ds| - 1])
  {
    assert forall x | x in ds[..|ds| - 1] :: x in ds;
  }

  lemma {:induction false} WellFormedReplays(ds: seq<NodeDelta>)
    requires WellFormed(ds)
    ensures Replay(GetOperations(ds)).Some?
    ensures Flush(Replay(GetOperations(ds)).value).nodeDeltas == ds
  {
    if ds != [] {
      hide Replay, GetOperations, NodeOps, WellFormed;
      var init, d := ds[..|ds| - 1], ds[|ds| - 1];
      assert init + [d] == ds;
      WellFormedInit(ds);
      WellFormedReplays(init);
      FreshNode(GetOperations(init), init, d);
      NodeReplays(GetOperations(init), d);
      OperationsOfLast(init, d);
    }
  }

  /** A delta comes back from its own operations exactly when it is well formed. */
  lemma DeltaComesBackExactly(ds: seq<NodeDelta>)
    ensures Build(GetOperations(ds)) == Some(ds) <==> WellFormed(ds)
  {
    if WellFormed(ds) {
      WellFormedReplays(ds);
    } else if Build(GetOperations(ds)) == Some(ds) {
      BuildIsWellFormed(GetOperations(ds));
    }
  }
}
