/** Repeated handshakes: how much of what a node asks for fits an answer, and how many answers it takes, however short
    each of them is, to learn everything about the node that answers. */
module Rounds {
  import opened Types
  import opened NodeStates
  import opened Replication
  import opened Reconciliation
  import opened Convergence
  import opened Codecs
  import opened Streams
  import opened Deltas
  import opened DeltaWire
  import opened PartialDeltas
  import opened MessageLimits
  import opened ClusterStates
  import opened Chitchats
  import opened Handshakes

  // ---------- what an answer carries at least ----------

  /** What a complete delta says of a node after its header. */
  ghost function FirstOperation(d: NodeDelta): DeltaOp
    requires d.keyValues != [] || d.maxVersion.Some?
  {
    if d.keyValues != [] then OpKeyValue(d.keyValues[0]) else OpSetMaxVersion(d.maxVersion.value)
  }

  predicate CarriesSomething(d: NodeDelta) {
    d.keyValues != [] || d.maxVersion.Some?
  }

  lemma FirstOfNode(d: NodeDelta)
    requires CarriesSomething(d)
    ensures |NodeOps(d)| >= 2 && NodeOps(d)[0] == OpNode(d.chitchatId, d.lastGcVersion, d.fromVersionExcluded)
    ensures NodeOps(d)[1] == FirstOperation(d)
  {
  }

  lemma NothingCarried(d: NodeDelta)
    requires !CarriesSomething(d)
    ensures |NodeOps(d)| == 1
  {
  }

  lemma FirstNodeFirst(ds: seq<NodeDelta>)
    requires ds != []
    ensures GetOperations(ds) == NodeOps(ds[0]) + GetOperations(ds[1..])
  {
    hide NodeOps, GetOperations;
    assert ds == [ds[0]] + ds[1..] && [ds[0]] == [] + [ds[0]];
    OperationsConcat([ds[0]], ds[1..]);
    OperationsOfLast([], ds[0]);
    NoNodes();
  }

  /** The first node of a cut carries something exactly if two operations were left. */
  lemma CutCarries(ds: seq<NodeDelta>, n: nat)
    requires ds != [] && CarriesSomething(ds[0]) && n <= |GetOperations(ds)|
    ensures Cut(ds, n) != [] && CarriesSomething(Cut(ds, n)[0]) <==> n >= 2
  {
    hide NodeOps, GetOperations, Cut, CarriesSomething;
    var c := Cut(ds, n);
    CutIsCut(ds, n);
    CutOperations(ds, n);
    if c == [] {
      assert GetOperations(c) == [] by {
        NoNodes();
      }
    } else {
      FirstNodeFirst(c);
      if CarriesSomething(c[0]) {
        FirstOfNode(c[0]);
      } else {
        NothingCarried(c[0]);
        if |c| == 1 {
          assert c[1..] == [];
          NoNodes();
        }
      }
    }
  }

  lemma NoNodes()
    ensures GetOperations([]) == []
  {
  }

  /** A computed delta carries something of the stalest node exactly if the node's header and the first of its
      operations fit. */
  lemma FirstOperationExactly(z: Zstd, views: Views, digest: Digest, mtu: nat, scheduled: set<ChitchatId>,
                              order: seq<ChitchatId>, taken: nat, delta: Delta)
    requires mtu > 0 && IsPartialDelta(z, views, digest, mtu, scheduled, order, taken, delta) && order != []
    ensures order[0] in views && CarriesSomething(FullNodeDelta(views, digest, order[0]))
    ensures var d := FullNodeDelta(views, digest, order[0]);
            var header, first := OpNode(d.chitchatId, d.lastGcVersion, d.fromVersionExcluded), FirstOperation(d);
            (delta.nodeDeltas != [] && CarriesSomething(delta.nodeDeltas[0]))
            <==> AttemptOf(z, mtu, [], header).Added? && AttemptOf(z, mtu, [header], first).Added?
  {
    hide IsOrder, NodeOps, GetOperations, Cut, AttemptOf, EncodeStream, FullNodeDelta, FirstOperation, StaleNodes;
    InOrderInViews(views, digest, StaleNodes(views, digest, scheduled), order);
    assert order[0] in order;
    var ds := FullNodeDeltas(views, digest, order);
    var all := GetOperations(ds);
    FullCarries(views, digest, order[0]);
    FirstNodeFirst(ds);
    FirstOfNode(ds[0]);
    CutCarries(ds, taken);
    var header, first := all[0], all[1];
    assert all[..0] == [] && all[..1] == [header];
    if taken >= 2 {
      assert AttemptOf(z, mtu, all[..0], all[0]).Added? && AttemptOf(z, mtu, all[..1], all[1]).Added?;
    } else {
      assert AttemptOf(z, mtu, all[..taken], all[taken]).Refused?;
    }
  }

  lemma FullCarries(views: Views, digest: Digest, id: ChitchatId)
    requires id in views
    ensures CarriesSomething(FullNodeDelta(views, digest, id))
  {
  }

  // ---------- room for one operation ----------

  /** Whatever the compressor, an answer that starts with the node has room for any one of its operations. */
  predicate HasRoom(mtu: nat, id: ChitchatId, o: NodeView) {
    var h := OpLen(OpNode(id, 0, 0));
    && h <= BLOCK_THRESHOLD && h + 16 <= mtu
    && forall k | k in o.keyValues ::
         var len := OpLen(OpKeyValue(MutationOf(k, o.keyValues[k]))); len < TWO_TO_THE_16 && h + len + 7 <= mtu
  }

  lemma RoomForTwo(z: Zstd, mtu: nat, header: DeltaOp, op: DeltaOp)
    requires OpLen(header) <= BLOCK_THRESHOLD && OpLen(op) < TWO_TO_THE_16 && OpLen(header) + OpLen(op) + 7 <= mtu
    ensures AttemptOf(z, mtu, [], header).Added? && AttemptOf(z, mtu, [header], op).Added?
  {
    HeaderAttempt(z, mtu, header);
    SecondBound(z, mtu, header, op);
    hide OpLen, BoundWith;
  }

  lemma RoomSuffices(z: Zstd, mtu: nat, views: Views, digest: Digest, id: ChitchatId)
    requires id in views && HasRoom(mtu, id, views[id])
    ensures CarriesSomething(FullNodeDelta(views, digest, id))
    ensures var d := FullNodeDelta(views, digest, id);
            var header := OpNode(d.chitchatId, d.lastGcVersion, d.fromVersionExcluded);
            mtu > 0 && AttemptOf(z, mtu, [], header).Added? && AttemptOf(z, mtu, [header], FirstOperation(d)).Added?
  {
    hide AttemptOf;
    var d := FullNodeDelta(views, digest, id);
    var header := OpNode(d.chitchatId, d.lastGcVersion, d.fromVersionExcluded);
    assert OpLen(header) == OpLen(OpNode(id, 0, 0));
    if d.keyValues != [] {
      SliceElements(views[id].keyValues, FloorOf(views, digest, id), views[id].maxVersion);
      assert d.keyValues[0] in d.keyValues;
    }
    RoomForTwo(z, mtu, header, FirstOperation(d));
  }

  // ---------- heartbeats do not matter ----------

  function Still(s: NodeView): NodeView {
    s.(heartbeat := 0)
  }

  lemma {:induction false} ApplyMutationsStill(s: NodeView, current: Version, ms: seq<KeyValueMutation>, now: Instant)
    ensures ApplyMutations(Still(s), current, ms, now) == Still(ApplyMutations(s, current, ms, now))
  {
    if ms != [] {
      ApplyMutationsStill(s, current, ms[..|ms| - 1], now);
    }
  }

  lemma ApplyDeltaStill(s: NodeView, d: NodeDelta, now: Instant)
    ensures Still(ApplyDelta(s, d, now)) == ApplyDelta(Still(s), d, now)
  {
    ApplyMutationsStill(s, s.maxVersion, d.keyValues, now);
    ApplyMutationsStill(ResetView(d), ResetView(d).maxVersion, d.keyValues, now);
  }

  // ---------- rounds ----------

  /** What all nodes of a cluster have in common. */
  datatype Setting = Setting(clusterId: Text, zstd: Zstd, checks: bool, maxPayload: nat, digestLen: Digest -> nat)

  /** A question and its answer.  `peer` is the state of the node that answers, once it has taken the question;
      `before` that of the node that asked, when the answer arrives. */
  datatype Round = Round(asked: Message, peer: Views, scheduled: set<ChitchatId>, order: seq<ChitchatId>, taken: nat,
                         reply: Message, before: Views, at: Instant)

  function DigestOfQuestion(msg: Message): Digest {
    if msg.Syn? || msg.SynAck? then msg.digest else map[]
  }

  function DeltaOfReply(msg: Message): Delta {
    if msg.SynAck? || msg.Ack? then msg.delta else Delta([], 0)
  }

  function MtuOfReply(c: Setting, msg: Message): nat {
    var mtu := DeltaMtu(c.checks, c.maxPayload, if msg.SynAck? then c.digestLen(msg.digest) else 0);
    if mtu.Some? then mtu.value else 0
  }

  /** `self` asks about node `id`, and gets an answer: SYN and SYN-ACK, or SYN-ACK and ACK.  What the digest said of its
      copy still holds when the answer arrives.  The node is the stalest that the peer has news of, if it has. */
  ghost predicate IsRound(c: Setting, id: ChitchatId, o: NodeView, r: Round) {
    && (r.asked.SynAck? || (r.asked.Syn? && r.asked.clusterId == c.clusterId))
    && IsOutcome(c.zstd, c.clusterId, c.checks, c.maxPayload, c.digestLen, r.peer, r.asked, r.scheduled,
                 Answered(Some(r.reply)), r.order, r.taken)
    && id in r.peer && id !in r.scheduled && SameContents(r.peer[id], o)
    && Describes(DigestOfQuestion(r.asked), id, ViewIn(r.before, id))
    && (id in r.order ==> r.order[0] == id)
    && HasRoom(MtuOfReply(c, r.reply), id, o)
  }

  /** The contents of the copy after the round. */
  function AfterRound(c: Setting, self: ChitchatId, id: ChitchatId, r: Round): NodeView {
    Still(ViewIn(AfterMessage(self, c.clusterId, r.before, r.reply, r.at), id))
  }

  /** If the peer has no news of any other node, the node is the stalest. */
  lemma OnlyNewsIsFirst(z: Zstd, views: Views, digest: Digest, mtu: nat, scheduled: set<ChitchatId>, order: seq<ChitchatId>,
                        taken: nat, delta: Delta, id: ChitchatId)
    requires mtu > 0 && IsPartialDelta(z, views, digest, mtu, scheduled, order, taken, delta)
    requires forall other | other in views && other != id :: views[other].maxVersion <= DigestMax(digest, other)
    ensures id in order ==> order[0] == id
  {
    hide GetOperations, FullNodeDeltas, TakenGreedily, NoStalerThan, ScoreOf;
    if id in order {
      OrderListsStale(z, views, digest, mtu, scheduled, order, taken, delta, order[0]);
    }
  }

  /** The delta of the answer. */
  lemma RoundIsPartialDelta(c: Setting, id: ChitchatId, o: NodeView, r: Round)
    requires IsRound(c, id, o, r)
    ensures (r.reply.SynAck? || r.reply.Ack?) && MtuOfReply(c, r.reply) > 0
    ensures IsPartialDelta(c.zstd, r.peer, DigestOfQuestion(r.asked), MtuOfReply(c, r.reply), r.scheduled, r.order, r.taken,
                           DeltaOfReply(r.reply))
  {
    hide IsPartialDelta, GapFree, KeepsMtu, HasRoom, Describes, SameContents;
  }

  lemma DeltaFromStill(s: NodeView, o: NodeView, gc: Version, max: Version, d: NodeDelta)
    requires SameContents(s, o)
    ensures DeltaFrom(s, gc, max, d) <==> DeltaFrom(Still(o), gc, max, d)
  {
  }

  /** A node delta of the answer, if it has one about the node. */
  function About(delta: Delta, id: ChitchatId): NodeDelta {
    if delta.nodeDeltas != [] && delta.nodeDeltas[0].chitchatId == id then delta.nodeDeltas[0]
    else NodeDelta(id, 0, 0, [], None)
  }

  /** A round is an exchange that carries something, if there is anything to carry. */
  lemma RoundIsExchange(c: Setting, self: ChitchatId, id: ChitchatId, o: NodeView, r: Round)
    requires IsRound(c, id, o, r)
    ensures Exchange(Still(o), Still(ViewIn(r.before, id)), About(DeltaOfReply(r.reply), id), r.at, AfterRound(c, self, id, r))
  {
    hide IsOutcome, IsPartialDelta, AfterMessage, HasRoom, DeltaFrom, ApplyDelta, CarriesSomething, FullNodeDelta;
    var copy, delta, digest, mtu := ViewIn(r.before, id), DeltaOfReply(r.reply), DigestOfQuestion(r.asked), MtuOfReply(c, r.reply);
    RoundIsPartialDelta(c, id, o, r);
    OrderListsStale(c.zstd, r.peer, digest, mtu, r.scheduled, r.order, r.taken, delta, id);
    AnswerTakesEffect(c, self, id, o, r);
    if copy.maxVersion < o.maxVersion {
      RoomSufficesFor(mtu, id, r.peer[id], o);
      RoomSuffices(c.zstd, mtu, r.peer, digest, id);
      FirstOperationExactly(c.zstd, r.peer, digest, mtu, r.scheduled, r.order, r.taken, delta);
      FirstIsDelta(c.zstd, r.peer, digest, mtu, r.scheduled, r.order, r.taken, delta);
      DeltaFromStill(r.peer[id], o, DigestGc(digest, id), DigestMax(digest, id), delta.nodeDeltas[0]);
      ApplyDeltaStill(copy, About(delta, id), r.at);
      SomethingIsCarried(About(delta, id));
    } else if delta.nodeDeltas != [] {
      FirstIsDelta(c.zstd, r.peer, digest, mtu, r.scheduled, r.order, r.taken, delta);
      assert r.order[0] in r.order;
    }
  }

  lemma SomethingIsCarried(d: NodeDelta)
    requires CarriesSomething(d)
    ensures d.keyValues != [] || d.maxVersion.Some?
  {
  }

  lemma RoomSufficesFor(mtu: nat, id: ChitchatId, s: NodeView, o: NodeView)
    requires SameContents(s, o) && HasRoom(mtu, id, o)
    ensures HasRoom(mtu, id, s)
  {
  }

  lemma FirstIsDelta(z: Zstd, views: Views, digest: Digest, mtu: nat, scheduled: set<ChitchatId>, order: seq<ChitchatId>,
                     taken: nat, delta: Delta)
    requires mtu > 0 && IsPartialDelta(z, views, digest, mtu, scheduled, order, taken, delta) && delta.nodeDeltas != []
    ensures order != [] && order[0] in views && delta.nodeDeltas[0].chitchatId == order[0]
    ensures DeltaFrom(views[order[0]], DigestGc(digest, order[0]), DigestMax(digest, order[0]), delta.nodeDeltas[0])
  {
    hide IsPartialDelta, DeltaFrom, GetOperations, FullNodeDeltas, Untruncated, NoStalerThan, ScoreOf, GapFree;
    PartialDeltasAreGapFree(z, views, digest, mtu, scheduled, order, taken, delta);
  }

  /** What the answer does to the contents of the copy. */
  lemma AnswerTakesEffect(c: Setting, self: ChitchatId, id: ChitchatId, o: NodeView, r: Round)
    requires IsRound(c, id, o, r)
    ensures var copy, d := ViewIn(r.before, id), About(DeltaOfReply(r.reply), id);
            AfterRound(c, self, id, r)
            == if DeltaOfReply(r.reply).nodeDeltas != [] && DeltaOfReply(r.reply).nodeDeltas[0].chitchatId == id
               then Still(ApplyDelta(copy, d, r.at)) else Still(copy)
  {
    hide IsOutcome, IsPartialDelta, HasRoom, DeltaFrom, ApplyDelta, AfterDigest, AfterSelfHeartbeat, ApplyNodeDeltas, ScoreOf, NoStalerThan,
         GetOperations, FullNodeDeltas, Untruncated, GapFree;
    var delta, digest, mtu := DeltaOfReply(r.reply), DigestOfQuestion(r.asked), MtuOfReply(c, r.reply);
    var ds := delta.nodeDeltas;
    RoundIsPartialDelta(c, id, o, r);
    OrderListsStale(c.zstd, r.peer, digest, mtu, r.scheduled, r.order, r.taken, delta, id);
    PartialDeltasAreGapFree(c.zstd, r.peer, digest, mtu, r.scheduled, r.order, r.taken, delta);
    var beaten := AfterSelfHeartbeat(self, r.before);
    var heard := if r.reply.SynAck? then AfterDigest(self, beaten, r.reply.digest) else beaten;
    HearingKeepsContents(self, r.before, if r.reply.SynAck? then r.reply.digest else map[], id);
    assert forall i, j | 0 <= i < j < |ds| :: ds[i].chitchatId != ds[j].chitchatId;
    EachNodeGetsItsDelta(heard, ds, r.at, id);
    if ds != [] && ds[0].chitchatId == id {
      assert ds[0] in ds;
      ApplyDeltaStill(ViewIn(heard, id), ds[0], r.at);
      ApplyDeltaStill(ViewIn(r.before, id), ds[0], r.at);
    } else {
      forall d | d in ds ensures d.chitchatId != id {
        var i :| 0 <= i < |ds| && ds[i] == d;
        assert r.order[i] in r.order;
      }
    }
  }

  /** Repeated handshakes.  Rounds in which `self` asks about node `id`, which does not write or collect meanwhile, one
      more of them than the copy has stale entries: if the copy can catch up, it agrees with the node in the end,
      however little each answer has room for, as long as that is one operation. */
  lemma RoundsConverge(c: Setting, self: ChitchatId, id: ChitchatId, log: Log, o: NodeView, rounds: seq<Round>)
    requires forall i | 0 <= i < |rounds| :: IsRound(c, id, o, rounds[i])
    requires forall i | 0 <= i < |rounds| - 1 :: Still(ViewIn(rounds[i + 1].before, id)) == AfterRound(c, self, id, rounds[i])
    requires rounds != [] && CatchingUp(log, o, ViewIn(rounds[0].before, id))
    requires |rounds| > |Stale(o, Floor(o, ViewIn(rounds[0].before, id)))|
    ensures Converged(log, o, AfterRound(c, self, id, rounds[|rounds| - 1]))
  {
    hide IsRound, AfterRound, Exchange, Converged;
    var n := |rounds|;
    var rs := seq(n, i requires 0 <= i < n => Still(ViewIn(rounds[i].before, id))) + [AfterRound(c, self, id, rounds[n - 1])];
    var ds := seq(n, i requires 0 <= i < n => About(DeltaOfReply(rounds[i].reply), id));
    var nows := seq(n, i requires 0 <= i < n => rounds[i].at);
    forall i | 0 <= i < n ensures Exchange(Still(o), rs[i], ds[i], nows[i], rs[i + 1]) {
      RoundIsExchange(c, self, id, o, rounds[i]);
    }
    assert Exchanges(Still(o), rs, ds, nows);
    StillCatchingUp(log, o, ViewIn(rounds[0].before, id));
    TruncatedExchangesConverge(log, Still(o), rs, ds, nows);
    StillConverged(log, o, rs[n]);
  }

  lemma StillCatchingUp(log: Log, o: NodeView, r: NodeView)
    requires CatchingUp(log, o, r)
    ensures CatchingUp(log, Still(o), Still(r))
    ensures Stale(Still(o), Floor(Still(o), Still(r))) == Stale(o, Floor(o, r))
  {
    SameContentsFaithful(log, o, Still(o));
    SameContentsFaithful(log, r, Still(r));
    hide Faithful;
  }

  lemma StillConverged(log: Log, o: NodeView, t: NodeView)
    requires Converged(log, Still(o), t)
    ensures Converged(log, o, t)
  {
    forall key ensures Agree(log, o, t, key) {
      assert Agree(log, Still(o), t, key);
    }
  }
}
