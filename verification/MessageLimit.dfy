/** Replies and their length: what `process_message` leaves for the delta, when that makes a message too long, and when
    an entry is too long for the serializer. */
module MessageLimits {
  import opened Types
  import opened NodeStates
  import opened Replication
  import opened Codecs
  import opened Streams
  import opened Deltas
  import opened DeltaWire
  import opened PartialDeltas

  // ---------- replies ----------

  /** Magic number, protocol version, message type. */
  const HEADER_LEN: nat := 4

  /** `max - 1 - digest_len` in usize: where it would be negative it panics or wraps around, as the build has it. */
  function DeltaMtu(overflowChecks: bool, maxPayload: nat, digestLen: nat): Option<nat> {
    if 1 + digestLen <= maxPayload then Some(maxPayload - 1 - digestLen)
    else if overflowChecks then None
    else Some((maxPayload - 1 - digestLen) % TWO_TO_THE_64)
  }

  /** A digest that leaves no room panics if overflows are checked; otherwise the limit is 2^64 too large, and so no limit
      at all. */
  lemma NoRoomForADelta(checks: bool, maxPayload: nat, digestLen: nat)
    requires maxPayload < 1 + digestLen <= TWO_TO_THE_64
    ensures var mtu := DeltaMtu(checks, maxPayload, digestLen);
            (mtu.None? <==> checks) && (!checks ==> mtu.value + 1 + digestLen == TWO_TO_THE_64 + maxPayload)
  {
  }

  /** `delta` is what a peer is answered that sent `digest`, in a message with `digestLen` bytes of digest; `None` if
      the computation panics: on the subtraction, on an MTU below 100, or on an operation too long for `append`. */
  ghost predicate IsReplyDelta(z: Zstd, views: Views, digest: Digest, mtu: Option<nat>, scheduled: set<ChitchatId>,
                               order: seq<ChitchatId>, taken: nat, delta: Option<Delta>)
  {
    if mtu.None? || mtu.value < 100 then delta.None?
    else
      match delta
      case None => IsOversized(z, views, digest, mtu.value, scheduled, order, taken)
      case Some(d) =>
        && IsPartialDelta(z, views, digest, mtu.value, scheduled, order, taken, d)
        && GapFree(views, digest, scheduled, d) && KeepsMtu(z, mtu.value, d)
  }

  /** The delta of a reply.  `with_mtu` asserts that the MTU is at least 100. */
  method ReplyDelta(z: Zstd, views: Views, digest: Digest, mtu: Option<nat>, scheduled: set<ChitchatId>)
    returns (delta: Option<Delta>, ghost order: seq<ChitchatId>, ghost taken: nat)
    requires VersionsOk(views)
    ensures IsReplyDelta(z, views, digest, mtu, scheduled, order, taken, delta)
  {
    hide IsOversized, IsPartialDelta, GapFree, KeepsMtu, VersionsOk;
    if mtu.None? || mtu.value < 100 {
      return None, [], 0;
    }
    delta, order, taken := ComputePartialDelta(z, views, digest, mtu.value, scheduled);
  }

  /** The code subtracts one byte for framing where the header has four: a reply may exceed the limit by three bytes if
      its operations fit blocks, and by twelve in any case. */
  lemma RepliesNearlyKeepTheLimit(z: Zstd, views: Views, digest: Digest, checks: bool, maxPayload: nat, digestLen: nat,
                                  scheduled: set<ChitchatId>, order: seq<ChitchatId>, taken: nat, delta: Delta)
    requires Lawful(z) && 1 + digestLen <= maxPayload
    requires IsReplyDelta(z, views, digest, DeltaMtu(checks, maxPayload, digestLen), scheduled, order, taken, Some(delta))
    ensures FitBlocks(BLOCK_THRESHOLD, GetOperations(delta.nodeDeltas)) ==>
              HEADER_LEN + digestLen + delta.serializedLen <= maxPayload + 3
    ensures HEADER_LEN + digestLen + delta.serializedLen <= maxPayload + 12
  {
    hide IsPartialDelta, GapFree, FitBlocks, GetOperations, Lawful;
  }

  // ---------- lengths without compression ----------

  /** The length of a finished stream of n bytes that do not compress. */
  function PlainLen(t: nat, n: nat): nat
    requires t > 0
  {
    n + BLOCK_META_LEN * BlockCount(n, t) + 1
  }

  function TotalLen(ops: seq<DeltaOp>): nat {
    if ops == [] then 0 else TotalLen(ops[..|ops| - 1]) + OpLen(ops[|ops| - 1])
  }

  lemma {:induction false} TotalLenIsExact(ops: seq<DeltaOp>)
    ensures |EncodeOps(ops)| == TotalLen(ops)
  {
    if ops == [] {
      NoOperations();
    } else {
      hide EncodeItems, EncodeOp, OpLen;
      var init, op := ops[..|ops| - 1], ops[|ops| - 1];
      TotalLenIsExact(init);
      OneMoreOp(init, op);
      OpLenIsExact(op);
      assert ops == init + [op];
    }
  }

  lemma {:induction false} PrefixIsShorter(ops: seq<DeltaOp>, n: nat)
    requires n <= |ops|
    ensures TotalLen(ops[..n]) <= TotalLen(ops)
  {
    hide OpLen;
    if n < |ops| {
      PrefixIsShorter(ops[..|ops| - 1], n);
      assert ops[..|ops| - 1][..n] == ops[..n];
    } else {
      assert ops[..n] == ops;
    }
  }

  lemma {:induction false} FewerBytesFewerBlocks(m: nat, n: nat, t: nat)
    requires t > 0 && m <= n
    ensures BlockCount(m, t) <= BlockCount(n, t)
    decreases n
  {
    if m > 0 {
      FewerBytesFewerBlocks(m - Min(t, m), n - Min(t, n), t);
    }
  }

  /** Without compression the predictor is exact for an operation of at most a block. */
  lemma PlainBoundIsExact(t: nat, ops: seq<DeltaOp>, op: DeltaOp)
    requires t > 0 && OpLen(op) <= t
    ensures BoundWith(NO_GAIN, t, ops, op) == PlainLen(t, TotalLen(ops) + OpLen(op))
  {
    hide EncodeStream, Flushed, Pending, EncodeOp, EncodeItems;
    var data, item := EncodeOps(ops), EncodeOp(op);
    NoGainIsLawful();
    TotalLenIsExact(ops);
    OpLenIsExact(op);
    ItemJoinsPending(NO_GAIN, t, data, item);
    StreamSplits(NO_GAIN, t, data + item);
    StreamSplits(NO_GAIN, t, Pending(t, data) + item);
    StreamLength(NO_GAIN, t, data + item);
    StreamLength(NO_GAIN, t, Pending(t, data) + item);
    UpToTwoBlocks(|Pending(t, data) + item|, t);
    assert 0 < OpLen(op);
  }

  lemma PlainOperationFits(mtu: nat, ops: seq<DeltaOp>, i: nat)
    requires mtu > 0 && i < |ops|
    requires var t := Min(BLOCK_THRESHOLD, mtu);
             OpLen(ops[i]) <= t && PlainLen(t, TotalLen(ops)) <= mtu
    ensures AttemptOf(NO_GAIN, mtu, ops[..i], ops[i]).Added?
  {
    hide BoundWith, OpLen, BlockCount, TotalLen;
    var t := Min(BLOCK_THRESHOLD, mtu);
    PlainBoundIsExact(t, ops[..i], ops[i]);
    PrefixIsShorter(ops, i + 1);
    TotalOfPrefix(ops, i);
    FewerBytesFewerBlocks(TotalLen(ops[..i + 1]), TotalLen(ops), t);
  }

  lemma TotalOfPrefix(ops: seq<DeltaOp>, i: nat)
    requires i < |ops|
    ensures TotalLen(ops[..i + 1]) == TotalLen(ops[..i]) + OpLen(ops[i])
  {
    assert ops[..i + 1][..i] == ops[..i];
  }

  /** Operations of at most a block are all taken if their plain length keeps to the MTU. */
  lemma PlainOperationsFit(mtu: nat, ops: seq<DeltaOp>)
    requires mtu > 0
    requires var t := Min(BLOCK_THRESHOLD, mtu);
             FitBlocks(t, ops) && PlainLen(t, TotalLen(ops)) <= mtu
    ensures CanBeTaken(NO_GAIN, mtu, ops, |ops|)
  {
    hide AttemptOf, OpLen, TotalLen, PlainLen;
    forall i | 0 <= i < |ops| ensures AttemptOf(NO_GAIN, mtu, ops[..i], ops[i]).Added? {
      PlainOperationFits(mtu, ops, i);
    }
  }

  lemma PlainPayloadLen(mtu: nat, ops: seq<DeltaOp>)
    requires mtu > 0
    ensures |FinishedPayload(NO_GAIN, mtu, ops)| == PlainLen(Min(BLOCK_THRESHOLD, mtu), TotalLen(ops))
  {
    hide EncodeStream, EncodeItems;
    NoGainIsLawful();
    TotalLenIsExact(ops);
    StreamLength(NO_GAIN, Min(BLOCK_THRESHOLD, mtu), EncodeOps(ops));
  }

  // ---------- one node with entries of given lengths ----------

  const NODE := ChitchatId([], 0, SocketAddr(V4([127, 0, 0, 1]), 7280))

  function KeyOf(i: nat): Text {
    LeBytes(i, 8)
  }

  lemma KeysDiffer(i: nat, j: nat)
    requires i < TWO_TO_THE_64 && j < TWO_TO_THE_64 && KeyOf(i) == KeyOf(j)
    ensures i == j
  {
    hide LeBytes, FromLeBytes;
    Widths();
    LeBytesRoundTrip(i, 8);
    LeBytesRoundTrip(j, 8);
  }

  function Entry(i: nat, len: nat): VersionedValue {
    VersionedValue(Zeros(len), i + 1, DeletionStatus.Set)
  }

  function EntriesOf(lens: seq<nat>): map<Text, VersionedValue> {
    if lens == [] then map[]
    else
      var n := |lens| - 1;
      EntriesOf(lens[..n])[KeyOf(n) := Entry(n, lens[n])]
  }

  predicate IsEntry(lens: seq<nat>, k: Text, vv: VersionedValue, i: nat) {
    i < |lens| && k == KeyOf(i) && vv == Entry(i, lens[i])
  }

  lemma {:induction false} EntriesAre(lens: seq<nat>)
    requires |lens| < TWO_TO_THE_64
    ensures forall k | k in EntriesOf(lens) :: exists i: nat :: IsEntry(lens, k, EntriesOf(lens)[k], i)
    ensures forall i: nat | i < |lens| :: KeyOf(i) in EntriesOf(lens) && EntriesOf(lens)[KeyOf(i)] == Entry(i, lens[i])
  {
    if lens != [] {
      hide KeyOf, Entry;
      var n := |lens| - 1;
      var init := lens[..n];
      EntriesAre(init);
      forall k | k in EntriesOf(lens) ensures exists i: nat :: IsEntry(lens, k, EntriesOf(lens)[k], i) {
        if k == KeyOf(n) {
          assert IsEntry(lens, k, EntriesOf(lens)[k], n);
        } else {
          var i: nat :| IsEntry(init, k, EntriesOf(init)[k], i);
          assert IsEntry(lens, k, EntriesOf(lens)[k], i);
        }
      }
      forall i: nat | i < |lens| ensures KeyOf(i) in EntriesOf(lens) && EntriesOf(lens)[KeyOf(i)] == Entry(i, lens[i]) {
        if i < n && KeyOf(i) == KeyOf(n) {
          KeysDiffer(i, n);
        }
      }
    }
  }

  function ViewWith(heartbeat: nat, lens: seq<nat>): NodeView {
    NodeView(heartbeat, EntriesOf(lens), |lens|, 0)
  }

  function MutationsOf(lens: seq<nat>): seq<KeyValueMutation> {
    seq(|lens|, i requires 0 <= i < |lens| => KeyValueMutation(KeyOf(i), Zeros(lens[i]), i + 1, MutSet))
  }

  lemma ViewIsSorted(heartbeat: nat, lens: seq<nat>)
    requires |lens| < TWO_TO_THE_64
    ensures VersionsBounded(ViewWith(heartbeat, lens)) && VersionsDistinct(ViewWith(heartbeat, lens))
    ensures StaleKeyValues(ViewWith(heartbeat, lens), 0) == MutationsOf(lens)
  {
    hide KeyOf, Zeros, EntriesOf;
    var s, ms := ViewWith(heartbeat, lens), MutationsOf(lens);
    EntriesAre(lens);
    forall k | k in s.keyValues ensures 1 <= s.keyValues[k].version <= |lens| && k == KeyOf(s.keyValues[k].version - 1) {
      var i: nat :| IsEntry(lens, k, s.keyValues[k], i);
    }
    forall m ensures m in ms <==> m.key in s.keyValues && m == MutationOf(m.key, s.keyValues[m.key]) && m.version > 0 {
      if m.key in s.keyValues && m == MutationOf(m.key, s.keyValues[m.key]) {
        var i: nat :| IsEntry(lens, m.key, s.keyValues[m.key], i);
        assert ms[i] == m;
      }
    }
    StaleKeyValuesIsTheSort(s, 0, ms);
  }

  function OpsWith(lens: seq<nat>): seq<DeltaOp> {
    [OpNode(NODE, 0, 0)] + KeyValueOps(MutationsOf(lens))
  }

  /** The node alone, and a peer that knows nothing of it. */
  function ViewsWith(heartbeat: nat, lens: seq<nat>): Views {
    map[NODE := ViewWith(heartbeat, lens)]
  }

  lemma OneNode(heartbeat: nat, lens: seq<nat>)
    requires 0 < |lens| < TWO_TO_THE_64
    ensures VersionsOk(ViewsWith(heartbeat, lens))
    ensures IsOrder(ViewsWith(heartbeat, lens), map[], StaleNodes(ViewsWith(heartbeat, lens), map[], {}), [NODE])
    ensures GetOperations(FullNodeDeltas(ViewsWith(heartbeat, lens), map[], [NODE])) == OpsWith(lens)
  {
    hide EntriesOf, MutationsOf, VersionsBounded, VersionsDistinct, StaleKeyValues, OpsWith, GetOperations, IsOrder;
    ViewIsSorted(heartbeat, lens);
    OperationsOfNode(heartbeat, lens);
    SingleNode(ViewsWith(heartbeat, lens), NODE);
  }

  lemma SingleNode(views: Views, id: ChitchatId)
    requires views.Keys == {id} && views[id].maxVersion > 0
    ensures IsOrder(views, map[], StaleNodes(views, map[], {}), [id])
    ensures GetOperations(FullNodeDeltas(views, map[], [id])) == NodeOps(FullNodeDelta(views, map[], id))
  {
    OnlyNode(views, id);
    OneDelta(views, id);
  }

  lemma OnlyNode(views: Views, id: ChitchatId)
    requires views.Keys == {id} && views[id].maxVersion > 0
    ensures StaleNodes(views, map[], {}) == {id}
  {
  }

  lemma OneDelta(views: Views, id: ChitchatId)
    requires id in views
    ensures GetOperations(FullNodeDeltas(views, map[], [id])) == NodeOps(FullNodeDelta(views, map[], id))
  {
    hide NodeOps, FullNodeDelta;
    var d := FullNodeDelta(views, map[], id);
    assert [id][..0] == [];
    OperationsOfLast([], d);
    assert [] + [d] == [d];
  }

  lemma OperationsOfNode(heartbeat: nat, lens: seq<nat>)
    requires 0 < |lens| && StaleKeyValues(ViewWith(heartbeat, lens), 0) == MutationsOf(lens)
    ensures NodeOps(FullNodeDelta(ViewsWith(heartbeat, lens), map[], NODE)) == OpsWith(lens)
  {
    hide EntriesOf, MutationsOf, StaleKeyValues;
    CountMutations(lens);
  }

  lemma CountMutations(lens: seq<nat>)
    ensures |MutationsOf(lens)| == |lens|
  {
  }

  // ---------- the limit is reached ----------

  /** Lengths of values whose operations have m bytes in all and at most a block each. */
  function LensFor(m: nat): (lens: seq<nat>)
    requires m >= 22
    ensures 0 < |lens| <= m
  {
    if m < 16_384 then [m - 22] else LensFor(m - 8_192) + [8_192 - 22]
  }

  lemma {:induction false} LensAdd(m: nat)
    requires m >= 22
    ensures TotalLen(OpsWith(LensFor(m))) == m + 34
    ensures forall op | op in OpsWith(LensFor(m)) :: OpLen(op) < 16_384
    ensures m < 16_384 ==> forall op | op in OpsWith(LensFor(m)) :: OpLen(op) <= m + 34
  {
    var lens := LensFor(m);
    if m < 16_384 {
      FirstAdds(m - 22);
    } else {
      LensAdd(m - 8_192);
      LastAdds(LensFor(m - 8_192), 8_192 - 22);
    }
  }

  lemma FirstAdds(len: nat)
    ensures TotalLen(OpsWith([len])) == len + 56
    ensures forall op | op in OpsWith([len]) :: OpLen(op) <= len + 56 && (OpLen(op) == 34 || OpLen(op) == len + 22)
  {
    var ops := OpsWith([len]);
    assert ops[..1] == [OpNode(NODE, 0, 0)] && ops[..1][..0] == [];
    assert TotalLen([]) == 0;
  }

  lemma LastAdds(lens: seq<nat>, len: nat)
    ensures TotalLen(OpsWith(lens + [len])) == TotalLen(OpsWith(lens)) + len + 22
    ensures forall op | op in OpsWith(lens + [len]) :: op in OpsWith(lens) || OpLen(op) == len + 22
  {
    var op := OpKeyValue(KeyValueMutation(KeyOf(|lens|), Zeros(len), |lens| + 1, MutSet));
    assert OpsWith(lens + [len]) == OpsWith(lens) + [op];
    assert OpsWith(lens + [len])[..|OpsWith(lens)|] == OpsWith(lens);
    assert OpLen(op) == len + 22;
  }

  /** What fills a message: without compression, with operations of at most a block. */
  ghost predicate FillsTheLimit(views: Views, digest: Digest, mtu: nat, scheduled: set<ChitchatId>,
                                order: seq<ChitchatId>, taken: nat, delta: Delta)
    requires mtu > 0
  {
    && VersionsOk(views) && IsPartialDelta(NO_GAIN, views, digest, mtu, scheduled, order, taken, delta)
    && FitBlocks(BLOCK_THRESHOLD, GetOperations(delta.nodeDeltas))
    && delta.serializedLen == mtu
  }

  /** Whatever plain length the MTU allows, some views have a delta of just that length. */
  lemma LengthIsReached(heartbeat: nat, mtu: nat, n: nat) returns (lens: seq<nat>, taken: nat, delta: Delta)
    requires 100 <= mtu < TWO_TO_THE_64 && n >= 56 && PlainLen(BLOCK_THRESHOLD, n) == mtu
    ensures |lens| < TWO_TO_THE_64 && FillsTheLimit(ViewsWith(heartbeat, lens), map[], mtu, {}, [NODE], taken, delta)
  {
    hide OpLen, TotalLen, BlockCount, IsOrder, GetOperations, CanBeTaken, EncodeStream, VersionsOk, FullNodeDeltas, OpsWith;
    lens := LensFor(n - 34);
    var ops := OpsWith(lens);
    LensAdd(n - 34);
    OneNode(heartbeat, lens);
    SameLength(mtu, n);
    forall i | 0 <= i < |ops| ensures OpLen(ops[i]) <= Min(BLOCK_THRESHOLD, mtu) {
      assert ops[i] in ops;
    }
    PlainOperationsFit(mtu, ops);
    PlainPayloadLen(mtu, ops);
    var views := ViewsWith(heartbeat, lens);
    taken := |ops|;
    assert ops[..|ops|] == ops;
    delta := Delta(Cut(FullNodeDeltas(views, map[], [NODE]), taken), mtu);
    CutOperations(FullNodeDeltas(views, map[], [NODE]), taken);
  }

  /** Up to an MTU of a block there is one block in either case. */
  lemma SameLength(mtu: nat, n: nat)
    requires 100 <= mtu && 0 < n && PlainLen(BLOCK_THRESHOLD, n) == mtu
    ensures n + 4 <= mtu && PlainLen(Min(BLOCK_THRESHOLD, mtu), n) == mtu
    ensures mtu < BLOCK_THRESHOLD || n >= BLOCK_THRESHOLD - 4
  {
    UpToTwoBlocks(n, BLOCK_THRESHOLD);
    UpToTwoBlocks(n, Min(BLOCK_THRESHOLD, mtu));
  }

  /** The lengths that a plain stream can have: all but three in every 16387. */
  lemma PlainLengths(n: nat)
    ensures PlainLen(BLOCK_THRESHOLD, n) % 16_387 !in {2, 3, 4}
  {
    var t := BLOCK_THRESHOLD;
    BlockCountIsCeiling(n, t);
    var q, r := n / t, n % t;
    if r == 0 {
      ModIsUnique(n + t - 1, t, q, t - 1);
      ModIsUnique(PlainLen(t, n), 16_387, q, 1);
    } else {
      ModIsUnique(n + t - 1, t, q + 1, r - 1);
      if r + 4 < 16_387 {
        ModIsUnique(PlainLen(t, n), 16_387, q, r + 4);
      } else {
        ModIsUnique(PlainLen(t, n), 16_387, q + 1, 0);
      }
    }
  }

  lemma PlainLengthExists(len: nat) returns (n: nat)
    requires len >= 100 && len % 16_387 !in {2, 3, 4}
    ensures n >= 56 && PlainLen(BLOCK_THRESHOLD, n) == len
  {
    var t, q, r := BLOCK_THRESHOLD, len / 16_387, len % 16_387;
    if r == 0 {
      n := t * (q - 1) + 16_383;
      BlockCountIsCeiling(n, t);
      ModIsUnique(n + t - 1, t, q, 16_382);
    } else if r == 1 {
      n := t * q;
      BlockCountIsCeiling(n, t);
      ModIsUnique(n + t - 1, t, q, t - 1);
    } else {
      n := t * q + (r - 4);
      BlockCountIsCeiling(n, t);
      ModIsUnique(n + t - 1, t, q + 1, r - 5);
    }
  }

  /** Which limits a reply can exceed by three bytes, without compression: all but three in every 16387. */
  lemma LimitIsExceededExactly(maxPayload: nat, digestLen: nat)
    requires 101 + digestLen <= maxPayload <= TWO_TO_THE_64
    ensures var mtu := maxPayload - 1 - digestLen;
            (exists views, digest, scheduled, order, taken, delta ::
               FillsTheLimit(views, digest, mtu, scheduled, order, taken, delta)
               && HEADER_LEN + digestLen + delta.serializedLen == maxPayload + 3)
            <==> mtu % 16_387 !in {2, 3, 4}
  {
    hide FillsTheLimit, PlainLen;
    var mtu := maxPayload - 1 - digestLen;
    if mtu % 16_387 !in {2, 3, 4} {
      var n := PlainLengthExists(mtu);
      var lens, taken, delta := LengthIsReached(1, mtu, n);
      FilledLen(ViewsWith(1, lens), map[], mtu, {}, [NODE], taken, delta);
    }
    forall views, digest, scheduled, order, taken, delta | FillsTheLimit(views, digest, mtu, scheduled, order, taken, delta)
      ensures mtu % 16_387 !in {2, 3, 4}
    {
      FilledLen(views, digest, mtu, scheduled, order, taken, delta);
    }
  }

  lemma FilledLen(views: Views, digest: Digest, mtu: nat, scheduled: set<ChitchatId>,
                  order: seq<ChitchatId>, taken: nat, delta: Delta)
    requires mtu > 0 && FillsTheLimit(views, digest, mtu, scheduled, order, taken, delta)
    ensures delta.serializedLen == mtu && mtu % 16_387 !in {2, 3, 4}
  {
    hide TakenGreedily, FullNodeDeltas, EncodeStream, EncodeItems, PlainLen, BlockCount, AllFitted, GetOperations, FitBlocks;
    var all := GetOperations(FullNodeDeltas(views, digest, order));
    TakenFitted(NO_GAIN, mtu, all, taken);
    ThresholdsAgree(NO_GAIN, mtu, all[..taken]);
    PlainPayloadLen(BLOCK_THRESHOLD, all[..taken]);
    PlainLengths(TotalLen(all[..taken]));
  }

  // ---------- an operation that is too long ----------

  /** A node whose id makes its header n + 34 bytes long. */
  function LongNode(n: nat): ChitchatId {
    ChitchatId(Zeros(n), 0, SocketAddr(V4([127, 0, 0, 1]), 7280))
  }

  /** Some cluster state makes `append` panic in the computation of a delta. */
  ghost predicate SomethingPanics(z: Zstd, mtu: nat)
    requires mtu > 0
  {
    exists views, digest, scheduled, order, taken ::
      VersionsOk(views) && IsOversized(z, views, digest, mtu, scheduled, order, taken)
  }

  /** `append` can panic, whatever the compression, exactly with an MTU of 65543 bytes or more. */
  lemma AppendPanicsExactly(z: Zstd, mtu: nat)
    requires mtu >= 100
    ensures SomethingPanics(z, mtu) <==> mtu >= 65_543
  {
    hide IsOversized, VersionsOk;
    if mtu >= 65_543 {
      var id := LongNode(65_502);
      LongHeaderPanics(z, mtu, id);
    }
    forall views, digest, scheduled, order, taken | VersionsOk(views) && IsOversized(z, views, digest, mtu, scheduled, order, taken)
      ensures mtu >= 65_543
    {
      OversizedNeedsRoom(z, views, digest, mtu, scheduled, order, taken);
    }
  }

  lemma OversizedNeedsRoom(z: Zstd, views: Views, digest: Digest, mtu: nat, scheduled: set<ChitchatId>,
                           order: seq<ChitchatId>, taken: nat)
    requires mtu > 0 && IsOversized(z, views, digest, mtu, scheduled, order, taken)
    ensures mtu >= 65_543
  {
    hide Flushed, Pending, EncodeOps, GetOperations, FullNodeDeltas, IsOrder, CanBeTaken, OpLen;
  }

  /** A state with no entries left, of a node with that id. */
  function Emptied(id: ChitchatId): Views {
    map[id := NodeView(0, map[], 1, 1)]
  }

  lemma LongHeaderPanics(z: Zstd, mtu: nat, id: ChitchatId)
    requires mtu >= 65_543 && IdLen(id) + 17 == 65_536
    ensures VersionsOk(Emptied(id)) && IsOversized(z, Emptied(id), map[], mtu, {}, [id], 0)
  {
    hide IsOrder, GetOperations, FullNodeDeltas, IdLen;
    var d := FullNodeDelta(Emptied(id), map[], id);
    SingleNode(Emptied(id), id);
    var op := OpNode(id, d.lastGcVersion, d.fromVersionExcluded);
    assert NodeOps(d)[0] == op && OpLen(op) == 65_536;
    FirstBound(z, mtu, op);
  }

  lemma FirstBound(z: Zstd, mtu: nat, op: DeltaOp)
    requires mtu > 0
    ensures BoundWith(z, Min(BLOCK_THRESHOLD, mtu), [], op) == UpperBoundAfter(0, 0, Min(BLOCK_THRESHOLD, mtu), OpLen(op))
  {
    hide OpLen;
    NoOperations();
    OneBlockIsPending(z, Min(BLOCK_THRESHOLD, mtu), []);
  }

  /** Only node `id` has news for the peer, who knows nothing of it: a single entry. */
  predicate SingleStale(views: Views, digest: Digest, scheduled: set<ChitchatId>, id: ChitchatId, key: Text, value: Text) {
    && StaleNodes(views, digest, scheduled) == {id} && DigestGc(digest, id) == DigestMax(digest, id) == 0
    && views[id] == NodeView(views[id].heartbeat, map[key := VersionedValue(value, 1, DeletionStatus.Set)], 1, 0)
  }

  function HeaderOp(id: ChitchatId): DeltaOp {
    OpNode(id, 0, 0)
  }

  function EntryOp(key: Text, value: Text): DeltaOp {
    OpKeyValue(KeyValueMutation(key, value, 1, MutSet))
  }

  lemma SingleOrder(views: Views, digest: Digest, ids: set<ChitchatId>, id: ChitchatId, order: seq<ChitchatId>)
    requires ids <= views.Keys && ids == {id}
    ensures IsOrder(views, digest, ids, order) <==> order == [id]
  {
    hide NoStalerThan, ScoreOf;
    if IsOrder(views, digest, ids, order) {
      assert |order| > 1 ==> order[0] != order[1];
      assert id in order;
      forall i | 0 <= i < |order| ensures order[i] == id {
        assert order[i] in order;
      }
    }
  }

  lemma SingleOperations(views: Views, digest: Digest, scheduled: set<ChitchatId>, id: ChitchatId, key: Text, value: Text)
    requires SingleStale(views, digest, scheduled, id, key, value)
    ensures GetOperations(FullNodeDeltas(views, digest, [id])) == [HeaderOp(id), EntryOp(key, value)]
  {
    var m := KeyValueMutation(key, value, 1, MutSet);
    StaleKeyValuesIsTheSort(views[id], 0, [m]);
    var d := FullNodeDelta(views, digest, id);
    assert NodeOps(d) == [HeaderOp(id), EntryOp(key, value)];
    hide NodeOps, FullNodeDelta, StaleKeyValues;
    assert [id][..0] == [];
    OperationsOfLast([], d);
    assert [] + [d] == [d];
  }

  lemma HeaderAttempt(z: Zstd, mtu: nat, header: DeltaOp)
    requires mtu > 0 && OpLen(header) <= BLOCK_THRESHOLD
    ensures AttemptOf(z, mtu, [], header) == if OpLen(header) + 4 <= mtu then Added else Refused
  {
    hide OpLen, BoundWith;
    FirstBound(z, mtu, header);
  }

  lemma EntryAttempt(z: Zstd, mtu: nat, header: DeltaOp, op: DeltaOp)
    requires mtu > 0 && OpLen(header) <= Min(BLOCK_THRESHOLD, mtu)
    ensures AttemptOf(z, mtu, [header], op).Panicked? <==> OpLen(op) >= TWO_TO_THE_16 && OpLen(header) + OpLen(op) + 7 <= mtu
  {
    SecondBound(z, mtu, header, op);
    hide OpLen, BoundWith;
  }

  lemma SecondBound(z: Zstd, mtu: nat, header: DeltaOp, op: DeltaOp)
    requires mtu > 0 && OpLen(header) <= Min(BLOCK_THRESHOLD, mtu)
    ensures var t := Min(BLOCK_THRESHOLD, mtu); BoundWith(z, t, [header], op) == UpperBoundAfter(0, OpLen(header), t, OpLen(op))
  {
    hide EncodeOp, Pending, Flushed, EncodeItems, OpLen;
    var t := Min(BLOCK_THRESHOLD, mtu);
    OpLenIsExact(header);
    NoOperations();
    OneMoreOp([], header);
    assert [] + [header] == [header];
    OneBlockIsPending(z, t, EncodeOps([header]));
  }

  lemma SingleEntryPanics(z: Zstd, mtu: nat, header: DeltaOp, op: DeltaOp, taken: nat)
    requires mtu > 0 && OpLen(header) <= BLOCK_THRESHOLD
    ensures PanicsAt(z, mtu, [header, op], taken)
            <==> taken == 1 && OpLen(op) >= TWO_TO_THE_16 && OpLen(header) + OpLen(op) + 7 <= mtu
  {
    var all := [header, op];
    assert all[..0] == [] && all[..1] == [header];
    HeaderAttempt(z, mtu, header);
    if OpLen(header) + 4 <= mtu {
      EntryAttempt(z, mtu, header, op);
    }
    hide AttemptOf, OpLen;
    assert taken == 1 ==> (CanBeTaken(z, mtu, all, taken) <==> AttemptOf(z, mtu, all[..0], all[0]).Added?);
  }

  /** A single entry: `append` panics exactly if the operation of the entry has 65536 bytes or more and fits, with
      seven bytes and the header before it. */
  lemma LongValuePanicsExactly(z: Zstd, views: Views, digest: Digest, mtu: nat, scheduled: set<ChitchatId>,
                               id: ChitchatId, key: Text, value: Text)
    requires mtu > 0 && SingleStale(views, digest, scheduled, id, key, value) && OpLen(HeaderOp(id)) <= BLOCK_THRESHOLD
    ensures (exists order, taken :: IsOversized(z, views, digest, mtu, scheduled, order, taken))
            <==> OpLen(EntryOp(key, value)) >= TWO_TO_THE_16 && OpLen(HeaderOp(id)) + OpLen(EntryOp(key, value)) + 7 <= mtu
  {
    hide IsOrder, PanicsAt, GetOperations, FullNodeDeltas, OpLen, StaleNodes, HeaderOp, EntryOp;
    var header, op := HeaderOp(id), EntryOp(key, value);
    SingleOperations(views, digest, scheduled, id, key, value);
    forall order, taken
      ensures IsOversized(z, views, digest, mtu, scheduled, order, taken)
              <==> order == [id] && taken == 1 && OpLen(op) >= TWO_TO_THE_16 && OpLen(header) + OpLen(op) + 7 <= mtu
    {
      SingleOrder(views, digest, StaleNodes(views, digest, scheduled), id, order);
      SingleEntryPanics(z, mtu, header, op, taken);
      if order == [id] {
        assert IsOversized(z, views, digest, mtu, scheduled, order, taken) <==> PanicsAt(z, mtu, [header, op], taken);
      }
    }
    if OpLen(op) >= TWO_TO_THE_16 && OpLen(header) + OpLen(op) + 7 <= mtu {
      assert IsOversized(z, views, digest, mtu, scheduled, [id], 1);
    }
  }
}
