/** Deltas on the wire: the serializer that keeps a delta within an MTU, and `Delta`'s own serialization. */
module DeltaWire {
  import opened Types
  import opened Codecs
  import opened Streams
  import opened Deltas

  const OP_CODEC: Codec<DeltaOp> := Codec(op => EncodeOp(op), buf => DecodeOp(buf))

  const BLOCK_THRESHOLD: nat := 16_384

  function EncodeOps(ops: seq<DeltaOp>): seq<byte> {
    EncodeItems(OP_CODEC, ops)
  }

  lemma OpCodecProgresses()
    ensures Progresses(OP_CODEC)
  {
  }

  lemma EncodableOpsComeBack(ops: seq<DeltaOp>)
    requires forall op | op in ops :: EncodableOp(op)
    ensures forall op | op in ops :: ComesBack(OP_CODEC, op)
  {
    forall op | op in ops ensures ComesBack(OP_CODEC, op) {
      forall rest: seq<byte> ensures OP_CODEC.decode(OP_CODEC.encode(op) + rest) == Parsed(op, rest) {
        OpRoundTrip(op, rest);
      }
    }
  }

  // ---------- the serializer ----------

  /** The bound the serializer compares with the MTU before it takes `op`, after it took `ops`. */
  function BoundWith(z: Zstd, t: nat, ops: seq<DeltaOp>, op: DeltaOp): nat
    requires t > 0
  {
    UpperBoundAfter(|Flushed(z, t, EncodeOps(ops))|, |Pending(t, EncodeOps(ops))|, t, OpLen(op))
  }

  predicate Fits(z: Zstd, mtu: nat, ops: seq<DeltaOp>, op: DeltaOp)
    requires mtu > 0
  {
    BoundWith(z, Min(BLOCK_THRESHOLD, mtu), ops, op) <= mtu
  }

  /** No operation is longer than a block. */
  predicate FitBlocks(t: nat, ops: seq<DeltaOp>) {
    forall i | 0 <= i < |ops| :: OpLen(ops[i]) <= t
  }

  function FinishedPayload(z: Zstd, mtu: nat, ops: seq<DeltaOp>): seq<byte>
    requires mtu > 0
  {
    EncodeStream(z, Min(BLOCK_THRESHOLD, mtu), EncodeOps(ops))
  }

  /** Every operation is one that `append` can take: its length fits 16 bits. */
  predicate AllShort(ops: seq<DeltaOp>) {
    forall i | 0 <= i < |ops| :: OpLen(ops[i]) < TWO_TO_THE_16
  }

  /** The bound allows for two blocks, and an operation below 2^16 bytes may take five. */
  const EXCESS: nat := 9

  /** Finishing now keeps to the MTU, provided no operation was longer than a block, and exceeds it by nine bytes at
      most otherwise; up to an MTU of one block no longer operation is ever taken. */
  ghost predicate WithinMtu(z: Zstd, mtu: nat, ops: seq<DeltaOp>)
    requires mtu > 0
  {
    && (Lawful(z) && FitBlocks(BLOCK_THRESHOLD, ops) ==> |FinishedPayload(z, mtu, ops)| <= mtu)
    && (Lawful(z) ==> |FinishedPayload(z, mtu, ops)| <= mtu + EXCESS)
    && (mtu <= BLOCK_THRESHOLD ==> FitBlocks(mtu, ops))
  }

  /** Every operation fitted when it was taken. */
  predicate AllFitted(z: Zstd, mtu: nat, ops: seq<DeltaOp>)
    requires mtu > 0
  {
    forall i | 0 <= i < |ops| :: Fits(z, mtu, ops[..i], ops[i])
  }

  lemma AllFittedAndOne(z: Zstd, mtu: nat, ops: seq<DeltaOp>, op: DeltaOp)
    requires mtu > 0 && AllFitted(z, mtu, ops) && Fits(z, mtu, ops, op)
    ensures AllFitted(z, mtu, ops + [op])
  {
    hide Fits;
    var all := ops + [op];
    forall i | 0 <= i < |all| ensures Fits(z, mtu, all[..i], all[i]) {
      if i < |ops| {
        assert all[..i] == ops[..i];
      } else {
        assert all[..i] == ops;
      }
    }
  }

  /** What becomes of an operation: taken, refused for want of room, or too long for `append`, which panics. */
  datatype Attempt = Added | Refused | Panicked

  function AttemptOf(z: Zstd, mtu: nat, ops: seq<DeltaOp>, op: DeltaOp): Attempt
    requires mtu > 0
  {
    if !Fits(z, mtu, ops, op) then Refused
    else if OpLen(op) >= TWO_TO_THE_16 then Panicked
    else Added
  }

  class DeltaSerializer {
    const mtu: nat
    const zstd: Zstd
    const writer: CompressedStreamWriter
    const builder: DeltaBuilder
    /** The operations taken so far. */
    ghost var ops: seq<DeltaOp>

    ghost predicate Valid()
      reads this, writer, builder
    {
      && 100 <= mtu
      && writer.Valid() && writer.zstd == zstd && writer.blockThreshold == Min(BLOCK_THRESHOLD, mtu)
      && writer.written == EncodeOps(ops)
      && Replay(ops) == Some(builder.View())
      && WithinMtu(zstd, mtu, ops)
      && AllFitted(zstd, mtu, ops) && AllShort(ops)
    }

    constructor WithMtu(zstd: Zstd, mtu: nat)
      requires 100 <= mtu
      ensures Valid() && fresh(writer) && fresh(builder)
      ensures this.mtu == mtu && this.zstd == zstd && ops == []
    {
      this.mtu, this.zstd := mtu, zstd;
      writer := new CompressedStreamWriter(zstd, Min(BLOCK_THRESHOLD, mtu));
      builder := new DeltaBuilder();
      ops := [];
    }

    /** Takes the operation unless the announced bound exceeds the MTU.  `append` asserts that the length of an
        operation fits 16 bits.  The requires is the source's other assertion on an operation that is taken: that the
        builder accepts it. */
    method TryAddOp(op: DeltaOp) returns (r: Attempt)
      requires Valid()
      requires AttemptOf(zstd, mtu, ops, op).Added? ==> Takes(Replay(ops).value, op)
      modifies this`ops, writer, builder
      ensures Valid()
      ensures r == AttemptOf(zstd, mtu, old(ops), op)
      ensures ops == if r.Added? then old(ops) + [op] else old(ops)
    {
      if writer.SerializedLenUpperBoundAfter(OpLen(op)) > mtu {
        return Refused;
      }
      OpLenIsExact(op);
      if OpLen(op) >= TWO_TO_THE_16 {
        return Panicked;
      }
      ReplayOneMore(ops, op);
      OneMoreOp(ops, op);
      StaysWithinMtu(zstd, mtu, ops, op);
      AllFittedAndOne(zstd, mtu, ops, op);
      writer.Append(EncodeOp(op));
      var taken := builder.Apply(op);
      assert taken;
      ops := ops + [op];
      return Added;
    }

    method Finish() returns (delta: Delta)
      requires Valid()
      modifies writer, builder
      ensures delta == Delta(Build(ops).value, |FinishedPayload(zstd, mtu, ops)|)
      ensures Lawful(zstd) && FitBlocks(BLOCK_THRESHOLD, ops) ==> delta.serializedLen <= mtu
      ensures Lawful(zstd) ==> delta.serializedLen <= mtu + EXCESS
    {
      var buffer := writer.Finish();
      delta := builder.Finish(|buffer|);
    }
  }

  lemma OneMoreOp(ops: seq<DeltaOp>, op: DeltaOp)
    ensures EncodeOps(ops + [op]) == EncodeOps(ops) + EncodeOp(op)
  {
    assert (ops + [op])[..|ops|] == ops;
  }

  /** The finished length after an operation that was not too long for its bound. */
  lemma AcceptedStaysWithin(z: Zstd, t: nat, ops: seq<DeltaOp>, op: DeltaOp)
    requires t > 0 && Lawful(z) && OpLen(op) <= t
    ensures |EncodeStream(z, t, EncodeOps(ops + [op]))| <= BoundWith(z, t, ops, op)
  {
    hide EncodeStream, Flushed, Pending, EncodeOp, Lawful;
    var data, item := EncodeOps(ops), EncodeOp(op);
    OneMoreOp(ops, op);
    OpLenIsExact(op);
    ItemJoinsPending(z, t, data, item);
    StreamSplits(z, t, data + item);
    StreamSplits(z, t, Pending(t, data) + item);
    BoundHoldsExactly(|Flushed(z, t, data)|, |Pending(t, data)|, t, OpLen(op));
    assert FinishedLen(z, t, Flushed(z, t, data), Pending(t, data), item) <= BoundWith(z, t, ops, op);
  }

  /** The finished length after any operation that `append` takes, with blocks of 16384 bytes. */
  lemma LongOperationStaysWithin(z: Zstd, ops: seq<DeltaOp>, op: DeltaOp)
    requires Lawful(z) && OpLen(op) < TWO_TO_THE_16
    ensures |EncodeStream(z, BLOCK_THRESHOLD, EncodeOps(ops + [op]))| <= BoundWith(z, BLOCK_THRESHOLD, ops, op) + EXCESS
  {
    hide EncodeStream, Flushed, Pending, EncodeOp, Lawful;
    var t, data, item := BLOCK_THRESHOLD, EncodeOps(ops), EncodeOp(op);
    OneMoreOp(ops, op);
    OpLenIsExact(op);
    ItemJoinsPending(z, t, data, item);
    StreamSplits(z, t, data + item);
    StreamSplits(z, t, Pending(t, data) + item);
    StreamLength(z, t, Pending(t, data) + item);
    BlockCountIsCeiling(|Pending(t, data) + item|, t);
  }

  lemma FittingFitsBlock(z: Zstd, mtu: nat, ops: seq<DeltaOp>, op: DeltaOp)
    requires 0 < mtu <= BLOCK_THRESHOLD && Fits(z, mtu, ops, op)
    ensures OpLen(op) <= mtu
  {
  }

  lemma StaysWithinMtu(z: Zstd, mtu: nat, ops: seq<DeltaOp>, op: DeltaOp)
    requires mtu >= 100 && WithinMtu(z, mtu, ops) && AttemptOf(z, mtu, ops, op).Added?
    ensures WithinMtu(z, mtu, ops + [op])
  {
    hide Lawful, EncodeStream, Flushed, Pending, OpLen, BoundWith;
    var all := ops + [op];
    assert all[|ops|] == op;
    assert forall i | 0 <= i < |ops| :: all[i] == ops[i];
    if mtu <= BLOCK_THRESHOLD {
      FittingFitsBlock(z, mtu, ops, op);
    }
    if Lawful(z) {
      if OpLen(op) <= Min(BLOCK_THRESHOLD, mtu) {
        AcceptedStaysWithin(z, Min(BLOCK_THRESHOLD, mtu), ops, op);
      } else {
        LongOperationStaysWithin(z, ops, op);
      }
    }
  }

  // ---------- a delta's own serialization ----------

  /** `Delta::serialize`.  `lenAsAnnounced` is the source's assertion on the length. */
  method SerializeDelta(z: Zstd, delta: Delta) returns (payload: seq<byte>, lenAsAnnounced: bool)
    requires forall i | 0 <= i < |GetOperations(delta.nodeDeltas)| :: OpLen(GetOperations(delta.nodeDeltas)[i]) < TWO_TO_THE_16
    ensures payload == EncodeStream(z, BLOCK_THRESHOLD, EncodeOps(GetOperations(delta.nodeDeltas)))
    ensures lenAsAnnounced <==> |payload| == delta.serializedLen
  {
    hide EncodeStream, EncodeItems, EncodeOp;
    NoOperations();
    var writer := new CompressedStreamWriter(z, BLOCK_THRESHOLD);
    var ops := GetOperations(delta.nodeDeltas);
    for i := 0 to |ops|
      invariant writer.Valid() && writer.zstd == z && writer.blockThreshold == BLOCK_THRESHOLD
      invariant writer.written == EncodeOps(ops[..i])
    {
      OneMoreOp(ops[..i], ops[i]);
      assert ops[..i] + [ops[i]] == ops[..i + 1];
      OpLenIsExact(ops[i]);
      writer.Append(EncodeOp(ops[i]));
    }
    assert ops[..|ops|] == ops;
    payload := writer.Finish();
    lenAsAnnounced := |payload| == delta.serializedLen;
  }

  /** `Delta::deserialize`: the operations of the stream, replayed. */
  ghost function DecodeDelta(z: Zstd, buf: seq<byte>): Parsed<Delta> {
    OpCodecProgresses();
    StreamConsumes(z, buf);
    match DecodeItemStream(z, OP_CODEC, buf)
    case Failed => Failed
    case Parsed(ops, rest) =>
      match Build(ops)
      case None => Failed
      case Some(nodeDeltas) => Parsed(Delta(nodeDeltas, |buf| - |rest|), rest)
  }

  method DeserializeDelta(z: Zstd, buf: seq<byte>) returns (r: Parsed<Delta>)
    ensures r == DecodeDelta(z, buf)
  {
    hide DecodeItemStream, Takes, ApplyOp, EncodeOp, DecodeOp;
    OpCodecProgresses();
    var stream := DeserializeStream(z, OP_CODEC, buf);
    if stream.Failed? {
      return Failed;
    }
    StreamConsumes(z, buf);
    var ops, rest := stream.value, stream.rest;
    var consumed := |buf| - |rest|;
    var builder := new DeltaBuilder();
    for i := 0 to |ops|
      invariant Replay(ops[..i]) == Some(builder.View())
    {
      ReplayOneMore(ops[..i], ops[i]);
      assert ops[..i] + [ops[i]] == ops[..i + 1];
      var ok := builder.Apply(ops[i]);
      if !ok {
        ReplayStaysRefused(ops, i + 1);
        return Failed;
      }
    }
    assert ops[..|ops|] == ops;
    var delta := builder.Finish(consumed);
    r := Parsed(delta, rest);
  }

  lemma {:induction false} BlocksConsume(z: Zstd, buf: seq<byte>)
    ensures DecodeBlocks(z, buf).Parsed? ==> |DecodeBlocks(z, buf).rest| <= |buf|
    decreases |buf|
  {
    if |buf| >= 1 && 0 < buf[0] <= 2 {
      var lenAndRest := DecodeLe(2, buf[1..]);
      if lenAndRest.Parsed? && lenAndRest.value <= |lenAndRest.rest| {
        BlocksConsume(z, lenAndRest.rest[lenAndRest.value..]);
      }
    }
  }

  lemma StreamConsumes(z: Zstd, buf: seq<byte>)
    requires Progresses(OP_CODEC)
    ensures DecodeItemStream(z, OP_CODEC, buf).Parsed? ==> |DecodeItemStream(z, OP_CODEC, buf).rest| <= |buf|
  {
    hide DecodeBlocks, DecodeItems;
    BlocksConsume(z, buf);
  }

  lemma {:induction false} ReplayStaysRefused(ops: seq<DeltaOp>, n: nat)
    requires n <= |ops| && Replay(ops[..n]).None?
    ensures Replay(ops).None?
    decreases |ops|
  {
    if n == |ops| {
      assert ops[..n] == ops;
    } else {
      assert ops[..|ops| - 1][..n] == ops[..n];
      ReplayStaysRefused(ops[..|ops| - 1], n);
    }
  }

  /** With an MTU of at most a block, everything that was taken fits one block. */
  lemma {:induction false} AcceptedIsOneBlock(z: Zstd, mtu: nat, ops: seq<DeltaOp>)
    requires 0 < mtu <= BLOCK_THRESHOLD && AllFitted(z, mtu, ops) && ops != []
    ensures |EncodeOps(ops)| + BLOCK_META_LEN + 1 <= mtu
  {
    hide EncodeOp, OpLen, Flushed, Pending, EncodeItems;
    var init, op := ops[..|ops| - 1], ops[|ops| - 1];
    assert ops == init + [op];
    assert Fits(z, mtu, ops[..|ops| - 1], ops[|ops| - 1]);
    OneMoreOp(init, op);
    OpLenIsExact(op);
    if init != [] {
      forall i | 0 <= i < |init| ensures Fits(z, mtu, init[..i], init[i]) {
        assert init[..i] == ops[..i] && Fits(z, mtu, ops[..i], ops[i]);
      }
      AcceptedIsOneBlock(z, mtu, init);
    }
    assert EncodeOps([]) == [] by {
      NoOperations();
    }
    OneBlockIsPending(z, mtu, EncodeOps(init));
  }

  lemma NoOperations()
    ensures EncodeOps([]) == []
  {
  }

  lemma EmptyData(z: Zstd, t: nat)
    requires t > 0
    ensures EncodeStream(z, t, []) == [0]
  {
  }

  lemma OneBlockStream(z: Zstd, t: nat, data: seq<byte>)
    requires t > 0 && 0 < |data| <= t
    ensures EncodeStream(z, t, data) == Block(z, data) + [0]
  {
    assert data[..|data|] == data && data[|data|..] == [];
  }

  /** The serializer cuts blocks of min(16384, mtu) bytes, `Delta::serialize` of 16384: of operations that were taken
      they make the same payload. */
  lemma ThresholdsAgree(z: Zstd, mtu: nat, ops: seq<DeltaOp>)
    requires mtu > 0 && AllFitted(z, mtu, ops)
    ensures EncodeStream(z, BLOCK_THRESHOLD, EncodeOps(ops)) == FinishedPayload(z, mtu, ops)
  {
    hide EncodeStream, EncodeItems, AllFitted;
    var data := EncodeOps(ops);
    if mtu < BLOCK_THRESHOLD {
      if ops != [] {
        AcceptedIsOneBlock(z, mtu, ops);
      } else {
        NoOperations();
      }
      if data == [] {
        EmptyData(z, mtu);
        EmptyData(z, BLOCK_THRESHOLD);
      } else {
        OneBlockStream(z, mtu, data);
        OneBlockStream(z, BLOCK_THRESHOLD, data);
      }
    }
  }

  /** Round trip of a delta.  For operations that the serializer took, none of them after a maxVersion of the same node:
      the delta's own serialization is the very payload the serializer announced the length of, and reads back as an
      equal delta, leaving what follows. */
  lemma DeltaRoundTrip(z: Zstd, mtu: nat, ops: seq<DeltaOp>, tail: seq<byte>)
    requires Lawful(z) && mtu > 0 && AllFitted(z, mtu, ops)
    requires Replay(ops).Some? && MaxVersionEndsNode(ops)
    requires forall op | op in ops :: EncodableOp(op)
    ensures var delta := Delta(Build(ops).value, |FinishedPayload(z, mtu, ops)|);
            var payload := EncodeStream(z, BLOCK_THRESHOLD, EncodeOps(GetOperations(delta.nodeDeltas)));
            && payload == FinishedPayload(z, mtu, ops)
            && DecodeDelta(z, payload + tail) == Parsed(delta, tail)
  {
    hide EncodeStream, DecodeBlocks, EncodeItems, DecodeItems, Replay, EncodeOp, DecodeOp, AllFitted;
    ThresholdsAgree(z, mtu, ops);
    OpCodecProgresses();
    OperationsComeBackExactly(ops);
    EncodableOpsComeBack(ops);
    ItemStreamRoundTrip(z, BLOCK_THRESHOLD, OP_CODEC, ops, tail);
  }
}
