/** The states one process keeps about all nodes: deltas are applied to them node by node, and digests are drawn
    from them. */
module ClusterStates {
  import opened Types
  import opened NodeStates
  import opened Deltas
  import opened PartialDeltas

  function ViewIn(views: Views, id: ChitchatId): NodeView {
    if id in views then views[id] else EMPTY_VIEW
  }

  function ApplyNodeDeltas(views: Views, ds: seq<NodeDelta>, now: Instant): Views {
    if ds == [] then views
    else
      var before, d := ApplyNodeDeltas(views, ds[..|ds| - 1], now), ds[|ds| - 1];
      before[d.chitchatId := ApplyDelta(ViewIn(before, d.chitchatId), d, now)]
  }

  ghost function CollectAll(views: Views, now: Instant, grace: Instant): Views {
    map id | id in views :: Collect(views[id], now, grace)
  }

  /** The digest of one node, as it is gossiped. */
  function DigestOf(s: NodeView): NodeDigest {
    NodeDigest(s.heartbeat, s.lastGcVersion, s.maxVersion)
  }

  /** What a digest that leaves out the nodes `scheduled` says of the others. */
  function DigestOfAll(views: Views, scheduled: set<ChitchatId>): Digest {
    map id | id in views && id !in scheduled :: DigestOf(views[id])
  }

  class ClusterState {
    var nodeStates: map<ChitchatId, NodeState>
    ghost var repr: set<object>
    ghost var views: Views

    static ghost predicate Holds(n: NodeState, s: NodeView)
      reads n
    {
      n.View() == s
    }

    ghost predicate Valid()
      reads this, repr
    {
      && this !in repr
      && views.Keys == nodeStates.Keys
      && (forall id | id in nodeStates :: nodeStates[id] in repr && Holds(nodeStates[id], views[id]))
      && (forall i, j | i in nodeStates && j in nodeStates && i != j :: nodeStates[i] != nodeStates[j])
    }

    constructor ()
      ensures Valid() && repr == {} && views == map[]
    {
      nodeStates, repr, views := map[], {}, map[];
    }

    method NodeStateMut(id: ChitchatId) returns (n: NodeState)
      requires Valid()
      modifies this
      ensures Valid() && fresh(repr - old(repr))
      ensures views == old(views)[id := ViewIn(old(views), id)]
      ensures id in nodeStates && nodeStates[id] == n && n in repr && Holds(n, views[id])
    {
      if id !in nodeStates {
        n := new NodeState(id);
        nodeStates, views, repr := nodeStates[id := n], views[id := EMPTY_VIEW], repr + {n};
      }
      n := nodeStates[id];
    }

    /** Changing one node state changes its view and nothing else. */
    twostate lemma NodeChanged(id: ChitchatId)
      requires old(Valid()) && nodeStates == old(nodeStates) && repr == old(repr) && id in nodeStates
      requires forall o | o in repr && o != this && o != nodeStates[id] :: unchanged(o)
      requires views == old(views)[id := nodeStates[id].View()]
      ensures Valid()
    {
      hide NodeState.View;
    }

    method TrySetHeartbeat(id: ChitchatId, heartbeat: nat) returns (isNews: bool)
      requires Valid()
      modifies this, repr
      ensures Valid() && fresh(repr - old(repr))
      ensures views == old(views)[id := WithHeartbeat(ViewIn(old(views), id), heartbeat).0]
      ensures isNews == WithHeartbeat(ViewIn(old(views), id), heartbeat).1
    {
      hide ClusterState.Valid, NodeState.View;
      var n := NodeStateMut(id);
      label Found:
      isNews := n.TrySetHeartbeat(heartbeat);
      views := views[id := n.View()];
      NodeChanged@Found(id);
    }

    method IncHeartbeat(id: ChitchatId)
      requires Valid()
      modifies this, repr
      ensures Valid() && fresh(repr - old(repr))
      ensures views == old(views)[id := ViewIn(old(views), id).(heartbeat := ViewIn(old(views), id).heartbeat + 1)]
    {
      hide ClusterState.Valid;
      var n := NodeStateMut(id);
      label Found:
      n.IncHeartbeat();
      views := views[id := n.View()];
      NodeChanged@Found(id);
    }

    /** A write by the owner to the state of node `id`, its own. */
    method Write(id: ChitchatId, op: OwnerOp, now: Instant)
      requires Valid()
      modifies this, repr
      ensures Valid() && fresh(repr - old(repr))
      ensures views == old(views)[id := OwnerWrite(ViewIn(old(views), id), op, now)]
    {
      hide OwnerWrite, ClusterState.Valid, NodeState.View;
      var n := NodeStateMut(id);
      label Found:
      match op {
        case OpSet(key, value) => n.Set(key, value, now);
        case OpSetWithTtl(key, value) => n.SetWithTtl(key, value, now);
        case OpDelete(key) => n.Delete(key, now);
        case OpDeleteAfterTtl(key) => n.DeleteAfterTtlOf(key, now);
      }
      views := views[id := n.View()];
      NodeChanged@Found(id);
    }

    method ApplyNodeDelta(d: NodeDelta, now: Instant)
      requires Valid()
      modifies this, repr
      ensures Valid() && fresh(repr - old(repr))
      ensures views == old(views)[d.chitchatId := ApplyDelta(ViewIn(old(views), d.chitchatId), d, now)]
    {
      hide ApplyDelta, ClusterState.Valid, NodeState.View;
      var n := NodeStateMut(d.chitchatId);
      label Found:
      n.ApplyNodeDelta(d, now);
      views := views[d.chitchatId := n.View()];
      NodeChanged@Found(d.chitchatId);
    }

    method Apply(delta: Delta, now: Instant)
      requires Valid()
      modifies this, repr
      ensures Valid() && fresh(repr - old(repr))
      ensures views == ApplyNodeDeltas(old(views), delta.nodeDeltas, now)
    {
      hide ApplyDelta, ClusterState.Valid;
      var ds := delta.nodeDeltas;
      for n := 0 to |ds|
        invariant Valid() && fresh(repr - old(repr))
        invariant views == ApplyNodeDeltas(old(views), ds[..n], now)
      {
        assert ds[..n + 1][..n] == ds[..n];
        ApplyNodeDelta(ds[n], now);
      }
      assert ds[..|ds|] == ds;
    }

    method RemoveNode(id: ChitchatId)
      requires Valid()
      modifies this
      ensures Valid() && repr == old(repr)
      ensures views == old(views) - {id}
    {
      nodeStates, views := nodeStates - {id}, views - {id};
    }

    method GcKeysMarkedForDeletion(now: Instant, grace: Instant)
      requires Valid()
      modifies this`views, repr
      ensures Valid() && repr == old(repr)
      ensures views == CollectAll(old(views), now, grace)
    {
      hide Collect;
      ghost var before := views;
      var todo := nodeStates.Keys;
      while todo != {}
        invariant Valid() && nodeStates == old(nodeStates) && repr == old(repr)
        invariant todo <= nodeStates.Keys && views.Keys == before.Keys
        invariant forall id | id in views :: views[id] == if id in todo then before[id] else Collect(before[id], now, grace)
        decreases todo
      {
        var id :| id in todo;
        todo := todo - {id};
        var n := nodeStates[id];
        assert Holds(n, views[id]);
        hide ClusterState.Valid, NodeState.View;
        label Found:
        n.GcKeysMarkedForDeletion(now, grace);
        views := views[id := n.View()];
        NodeChanged@Found(id);
      }
    }

    method ComputeDigest(scheduled: set<ChitchatId>) returns (digest: Digest)
      requires Valid()
      ensures digest == DigestOfAll(views, scheduled)
    {
      digest := map id | id in nodeStates && id !in scheduled :: DigestOf(nodeStates[id].View());
    }

    method NodesBut(self: ChitchatId) returns (nodes: set<ChitchatId>)
      requires Valid()
      ensures nodes == views.Keys - {self}
    {
      return nodeStates.Keys - {self};
    }

    /** The views, read off the node states. */
    method Snapshot() returns (snapshot: Views)
      requires Valid()
      ensures snapshot == views
    {
      snapshot := map id | id in nodeStates :: nodeStates[id].View();
    }
  }

  // ---------- what a delta does to the cluster ----------

  /** A delta whose nodes are distinct gives each of them its own node delta, and touches no other node. */
  lemma {:induction false} EachNodeGetsItsDelta(views: Views, ds: seq<NodeDelta>, now: Instant, id: ChitchatId)
    requires forall i, j | 0 <= i < j < |ds| :: ds[i].chitchatId != ds[j].chitchatId
    ensures var after := ApplyNodeDeltas(views, ds, now);
            && ((forall d | d in ds :: d.chitchatId != id) ==> (id in after <==> id in views) && ViewIn(after, id) == ViewIn(views, id))
            && (forall d | d in ds && d.chitchatId == id :: id in after && after[id] == ApplyDelta(ViewIn(views, id), d, now))
  {
    hide ApplyDelta;
    if ds != [] {
      var rest, last := ds[..|ds| - 1], ds[|ds| - 1];
      EachNodeGetsItsDelta(views, rest, now, id);
      assert ds == rest + [last];
      forall d | d in ds && d.chitchatId == id
        ensures id in ApplyNodeDeltas(views, ds, now) && ApplyNodeDeltas(views, ds, now)[id] == ApplyDelta(ViewIn(views, id), d, now)
      {
        assert d in rest ==> exists i | 0 <= i < |ds| - 1 :: ds[i] == d;
      }
    }
  }

  /** No delta whatever breaks what the computation of partial deltas needs: versions distinct and bounded. */
  lemma {:induction false} DeltasKeepVersionsOk(views: Views, ds: seq<NodeDelta>, now: Instant)
    requires VersionsOk(views) && forall d | d in ds :: StrictlyIncreasing(d.keyValues)
    ensures VersionsOk(ApplyNodeDeltas(views, ds, now))
  {
    hide ApplyDelta;
    if ds != [] {
      var last := ds[|ds| - 1];
      assert forall d | d in ds[..|ds| - 1] :: d in ds;
      DeltasKeepVersionsOk(views, ds[..|ds| - 1], now);
      DeltaKeepsVersionsDistinct(ViewIn(ApplyNodeDeltas(views, ds[..|ds| - 1], now), last.chitchatId), last, now);
    }
  }
}
