/** The compressed block stream: a writer that cuts serialized items into blocks, the bound it announces
    on its own output, and the reader. */
module Streams {
  import opened Types
  import opened Codecs

  // ---------- the compressor ----------

  /** zstd, as far as the stream relies on it: `compress` into a buffer no longer than the input may fail. */
  datatype Zstd = Zstd(compress: seq<byte> -> Option<seq<byte>>, decompress: seq<byte> -> Option<seq<byte>>)

  ghost predicate Lawful(z: Zstd) {
    forall block {:trigger z.compress(block)} :: z.compress(block).Some? ==>
      |z.compress(block).value| <= |block| && z.decompress(z.compress(block).value) == Some(block)
  }

  /** The compressor that never finds anything to gain. */
  const NO_GAIN: Zstd := Zstd(_ => None, _ => None)

  const MAX_DECOMPRESSED: nat := 0xFFFF

  function DecompressToBuffer(z: Zstd, c: seq<byte>): Option<seq<byte>> {
    match z.decompress(c)
    case None => None
    case Some(block) => if |block| <= MAX_DECOMPRESSED then Some(block) else None
  }

  // ---------- the format ----------

  function Block(z: Zstd, chunk: seq<byte>): seq<byte> {
    match z.compress(chunk)
    case Some(c) => [1] + LeBytes(|c|, 2) + c
    case None => [2] + LeBytes(|chunk|, 2) + chunk
  }

  /** The stream for `data`: blocks of `t` bytes, the last one shorter, and an end mark. */
  function EncodeStream(z: Zstd, t: nat, data: seq<byte>): seq<byte>
    requires t > 0
  {
    if data == [] then [0]
    else
      var n := Min(t, |data|);
      Block(z, data[..n]) + EncodeStream(z, t, data[n..])
  }

  lemma FirstBlockOf(z: Zstd, t: nat, data: seq<byte>) returns (n: nat)
    requires t > 0 && data != []
    ensures n == Min(t, |data|) && 0 < n <= t && n <= |data|
    ensures EncodeStream(z, t, data) == Block(z, data[..n]) + EncodeStream(z, t, data[n..])
  {
    n := Min(t, |data|);
  }

  /** What a writer has not put into a block yet, once it was given `data`: at most one block. */
  function Pending(t: nat, data: seq<byte>): (p: seq<byte>)
    requires t > 0
    ensures |p| <= t && |p| <= |data| && (p == [] <==> data == [])
    decreases |data|
  {
    if |data| <= t then data else Pending(t, data[t..])
  }

  /** The blocks it has put out. */
  function Flushed(z: Zstd, t: nat, data: seq<byte>): seq<byte>
    requires t > 0
    decreases |data|
  {
    if |data| <= t then [] else Block(z, data[..t]) + Flushed(z, t, data[t..])
  }

  lemma {:induction false} StreamSplits(z: Zstd, t: nat, data: seq<byte>)
    requires t > 0
    ensures EncodeStream(z, t, data) == Flushed(z, t, data) + EncodeStream(z, t, Pending(t, data))
    decreases |data|
  {
    if |data| > t {
      StreamSplits(z, t, data[t..]);
    }
  }

  /** Only the pending bytes matter for what an item adds. */
  lemma {:induction false} ItemJoinsPending(z: Zstd, t: nat, data: seq<byte>, item: seq<byte>)
    requires t > 0
    ensures Pending(t, data + item) == Pending(t, Pending(t, data) + item)
    ensures Flushed(z, t, data + item) == Flushed(z, t, data) + Flushed(z, t, Pending(t, data) + item)
    decreases |data|
  {
    hide Block, Pending, Flushed;
    if |data| <= t {
      OneBlockIsPending(z, t, data);
    } else {
      ItemJoinsPending(z, t, data[t..], item);
      OneBlockOff(z, t, data);
      OneBlockOff(z, t, data + item);
      assert (data + item)[..t] == data[..t];
      assert (data + item)[t..] == data[t..] + item;
      Regroup(Block(z, data[..t]), Flushed(z, t, data[t..]), Flushed(z, t, Pending(t, data) + item));
    }
  }

  lemma Regroup(a: seq<byte>, b: seq<byte>, c: seq<byte>)
    ensures a + (b + c) == (a + b) + c
  {
  }

  lemma OneBlockIsPending(z: Zstd, t: nat, data: seq<byte>)
    requires t > 0 && |data| <= t
    ensures Flushed(z, t, data) == [] && Pending(t, data) == data
  {
  }

  lemma OneBlockOff(z: Zstd, t: nat, data: seq<byte>)
    requires 0 < t < |data|
    ensures Pending(t, data) == Pending(t, data[t..])
    ensures Flushed(z, t, data) == Block(z, data[..t]) + Flushed(z, t, data[t..])
  {
  }

  lemma FlushStep(z: Zstd, t: nat, output: seq<byte>, pending: seq<byte>)
    requires 0 < t < |pending|
    ensures output + Block(z, pending[..t]) + Flushed(z, t, pending[t..]) == output + Flushed(z, t, pending)
  {
  }

  // ---------- the writer ----------

  const BLOCK_META_LEN: nat := 3

  /** The bound announced for the finished length, once an item of `itemLen` bytes is appended. */
  function UpperBoundAfter(outputLen: nat, pendingLen: nat, t: nat, itemLen: nat): nat {
    if pendingLen + itemLen > t then
      BLOCK_META_LEN + outputLen + pendingLen + BLOCK_META_LEN + itemLen + 1
    else
      BLOCK_META_LEN + outputLen + pendingLen + itemLen + 1
  }

  class CompressedStreamWriter {
    const zstd: Zstd
    const blockThreshold: nat
    var output: seq<byte>
    var uncompressedBlock: seq<byte>
    /** All the bytes appended so far. */
    ghost var written: seq<byte>

    ghost predicate Valid()
      reads this
    {
      && 0 < blockThreshold < TWO_TO_THE_16
      && output == Flushed(zstd, blockThreshold, written)
      && uncompressedBlock == Pending(blockThreshold, written)
    }

    /** The source takes any u16; with threshold 0 its flush loop would not end. */
    constructor (zstd: Zstd, blockThreshold: nat)
      requires blockThreshold < TWO_TO_THE_16
      ensures blockThreshold > 0 ==> Valid()
      ensures this.zstd == zstd && this.blockThreshold == blockThreshold
      ensures written == [] && output == [] && uncompressedBlock == []
    {
      this.zstd, this.blockThreshold := zstd, blockThreshold;
      output, uncompressedBlock, written := [], [], [];
    }

    function SerializedLenUpperBoundAfter(itemLen: nat): nat
      reads this
    {
      UpperBoundAfter(|output|, |uncompressedBlock|, blockThreshold, itemLen)
    }

    /** Appends a serialized item; the source asserts the limit on its length. */
    method Append(item: seq<byte>)
      requires Valid() && |item| < TWO_TO_THE_16
      modifies this
      ensures Valid() && written == old(written) + item
    {
      ItemJoinsPending(zstd, blockThreshold, written, item);
      uncompressedBlock := uncompressedBlock + item;
      written := written + item;
      while |uncompressedBlock| > blockThreshold
        invariant 0 < blockThreshold
        invariant written == old(written) + item
        invariant output + Flushed(zstd, blockThreshold, uncompressedBlock) == Flushed(zstd, blockThreshold, written)
        invariant Pending(blockThreshold, uncompressedBlock) == Pending(blockThreshold, written)
        decreases |uncompressedBlock|
      {
        FlushStep(zstd, blockThreshold, output, uncompressedBlock);
        FlushBlock();
      }
    }

    /** Moves the first block, or what there is of it, to the output. */
    method FlushBlock()
      requires 0 < blockThreshold < TWO_TO_THE_16
      modifies this`output, this`uncompressedBlock
      ensures var n := Min(old(|uncompressedBlock|), blockThreshold);
              && uncompressedBlock == old(uncompressedBlock)[n..]
              && output == old(output) + if n == 0 then [] else Block(zstd, old(uncompressedBlock)[..n])
    {
      if uncompressedBlock == [] {
        return;
      }
      var n := Min(|uncompressedBlock|, blockThreshold);
      match zstd.compress(uncompressedBlock[..n]) {
        case Some(c) => output := output + ([1] + LeBytes(|c|, 2) + c);
        case None => output := output + ([2] + LeBytes(n, 2) + uncompressedBlock[..n]);
      }
      uncompressedBlock := uncompressedBlock[n..];
    }

    /** The finished stream depends on the bytes written only, not on how they came in items. */
    method Finish() returns (payload: seq<byte>)
      requires Valid()
      modifies this
      ensures payload == EncodeStream(zstd, blockThreshold, old(written))
    {
      StreamSplits(zstd, blockThreshold, written);
      LastBlock(zstd, blockThreshold, output, uncompressedBlock);
      FlushBlock();
      output := output + [0];
      payload := output;
    }
  }

  lemma LastBlock(z: Zstd, t: nat, output: seq<byte>, pending: seq<byte>)
    requires |pending| <= t && t > 0
    ensures output + EncodeStream(z, t, pending) == output + (if pending == [] then [] else Block(z, pending[..|pending|])) + [0]
  {
    if pending != [] {
      assert pending[|pending|..] == [];
      assert EncodeStream(z, t, pending) == Block(z, pending[..|pending|]) + [0];
    }
  }

  // ---------- lengths ----------

  /** The number of blocks of at most `t` bytes that n bytes fill. */
  function BlockCount(n: nat, t: nat): nat
    requires t > 0
    decreases n
  {
    if n == 0 then 0 else 1 + BlockCount(n - Min(t, n), t)
  }

  /** It is n / t rounded up. */
  lemma {:induction false} BlockCountIsCeiling(n: nat, t: nat)
    requires t > 0
    ensures BlockCount(n, t) == (n + t - 1) / t
    decreases n
  {
    if n > t {
      BlockCountIsCeiling(n - t, t);
      var a, r := (n - 1) / t, (n - 1) % t;
      ModIsUnique(n + t - 1, t, a + 1, r);
    } else if n > 0 {
      assert BlockCount(0, t) == 0;
      ModIsUnique(n + t - 1, t, 1, n - 1);
    } else {
      ModIsUnique(t - 1, t, 0, t - 1);
    }
  }

  /** The stream adds at most three bytes a block and one at the end; without compression, exactly that. */
  lemma {:induction false} StreamLength(z: Zstd, t: nat, data: seq<byte>)
    requires t > 0 && Lawful(z)
    ensures |EncodeStream(z, t, data)| <= |data| + BLOCK_META_LEN * BlockCount(|data|, t) + 1
    ensures z == NO_GAIN ==> |EncodeStream(z, t, data)| == |data| + BLOCK_META_LEN * BlockCount(|data|, t) + 1
    decreases |data|
  {
    if data != [] {
      hide Block, Lawful;
      var n := FirstBlockOf(z, t, data);
      BlockLength(z, data[..n]);
      StreamLength(z, t, data[n..]);
    }
  }

  lemma BlockLength(z: Zstd, chunk: seq<byte>)
    requires Lawful(z)
    ensures |Block(z, chunk)| <= |chunk| + BLOCK_META_LEN
    ensures z == NO_GAIN ==> |Block(z, chunk)| == |chunk| + BLOCK_META_LEN
  {
  }

  lemma NoGainIsLawful()
    ensures Lawful(NO_GAIN)
  {
  }

  /** Whatever was pending in whatever writer: finishing after one more item stays within the announced bound. */
  ghost predicate BoundHolds(outputLen: nat, pendingLen: nat, t: nat, itemLen: nat)
    requires t > 0
  {
    forall z: Zstd, output: seq<byte>, pending: seq<byte>, item: seq<byte>
      {:trigger FinishedLen(z, t, output, pending, item)} ::
      Lawful(z) && |output| == outputLen && |pending| == pendingLen && |item| == itemLen ==>
        FinishedLen(z, t, output, pending, item) <= UpperBoundAfter(outputLen, pendingLen, t, itemLen)
  }

  function FinishedLen(z: Zstd, t: nat, output: seq<byte>, pending: seq<byte>, item: seq<byte>): nat
    requires t > 0
  {
    |output + EncodeStream(z, t, pending + item)|
  }

  lemma UpToTwoBlocks(n: nat, t: nat)
    requires t > 0 && 0 < n
    ensures n <= t ==> BlockCount(n, t) == 1
    ensures t < n <= 2 * t ==> BlockCount(n, t) == 2
    ensures n > 2 * t ==> BlockCount(n, t) >= 3
  {
    assert BlockCount(0, t) == 0;
    if n > t {
      assert BlockCount(n, t) == 1 + BlockCount(n - t, t);
    }
  }

  function Zeros(n: nat): seq<byte> {
    seq(n, _ => 0)
  }

  /** The announced bound is one for every compressor exactly when the pending bytes and the item fill at most
      two blocks; in particular whenever the item is no longer than a block. */
  lemma BoundHoldsExactly(outputLen: nat, pendingLen: nat, t: nat, itemLen: nat)
    requires t > 0 && itemLen > 0
    ensures BoundHolds(outputLen, pendingLen, t, itemLen) <==> pendingLen + itemLen <= 2 * t
  {
    hide EncodeStream;
    UpToTwoBlocks(pendingLen + itemLen, t);
    if pendingLen + itemLen <= 2 * t {
      forall z: Zstd, output: seq<byte>, pending: seq<byte>, item: seq<byte> |
        Lawful(z) && |output| == outputLen && |pending| == pendingLen && |item| == itemLen
        ensures FinishedLen(z, t, output, pending, item) <= UpperBoundAfter(outputLen, pendingLen, t, itemLen)
      {
        StreamLength(z, t, pending + item);
      }
    } else {
      var output, pending, item := Zeros(outputLen), Zeros(pendingLen), Zeros(itemLen);
      StreamLength(NO_GAIN, t, pending + item);
      assert FinishedLen(NO_GAIN, t, output, pending, item) > UpperBoundAfter(outputLen, pendingLen, t, itemLen);
    }
  }

  /** A longer item never has a smaller bound. */
  lemma BoundIsMonotone(outputLen: nat, pendingLen: nat, t: nat, a: nat, b: nat)
    requires a <= b
    ensures UpperBoundAfter(outputLen, pendingLen, t, a) <= UpperBoundAfter(outputLen, pendingLen, t, b)
  {
  }

  // ---------- the reader ----------

  function DecodeBlocks(z: Zstd, buf: seq<byte>): Parsed<seq<byte>>
    decreases |buf|
  {
    if |buf| < 1 then Failed
    else if buf[0] == 0 then Parsed([], buf[1..])
    else if buf[0] > 2 then Failed
    else
      match DecodeLe(2, buf[1..])
      case Failed => Failed
      case Parsed(len, rest) =>
        if |rest| < len then Failed
        else
          match if buf[0] == 1 then DecompressToBuffer(z, rest[..len]) else Some(rest[..len])
          case None => Failed
          case Some(chunk) =>
            PrependData(chunk, DecodeBlocks(z, rest[len..]))
  }

  lemma BlockFields(z: Zstd, tag: byte, body: seq<byte>, chunk: seq<byte>, tail: seq<byte>)
    requires |body| < TWO_TO_THE_16
    requires (tag == 1 && DecompressToBuffer(z, body) == Some(chunk)) || (tag == 2 && body == chunk)
    ensures DecodeBlocks(z, [tag] + LeBytes(|body|, 2) + body + tail) == PrependData(chunk, DecodeBlocks(z, tail))
  {
    Widths();
    var buf := [tag] + LeBytes(|body|, 2) + body + tail;
    assert buf[1..] == LeBytes(|body|, 2) + (body + tail);
    LeRoundTrip(|body|, 2, body + tail);
    assert (body + tail)[..|body|] == body && (body + tail)[|body|..] == tail;
  }

  function PrependData(chunk: seq<byte>, p: Parsed<seq<byte>>): Parsed<seq<byte>> {
    match p
    case Failed => Failed
    case Parsed(data, rest) => Parsed(chunk + data, rest)
  }

  lemma BlockRoundTrip(z: Zstd, chunk: seq<byte>, tail: seq<byte>)
    requires Lawful(z) && 0 < |chunk| < TWO_TO_THE_16
    ensures DecodeBlocks(z, Block(z, chunk) + tail) == PrependData(chunk, DecodeBlocks(z, tail))
  {
    match z.compress(chunk)
    case Some(c) => BlockFields(z, 1, c, chunk, tail);
    case None => BlockFields(z, 2, chunk, chunk, tail);
  }

  lemma BlockThenStream(z: Zstd, chunk: seq<byte>, more: seq<byte>, rest: seq<byte>, tail: seq<byte>)
    requires Lawful(z) && 0 < |chunk| < TWO_TO_THE_16
    requires DecodeBlocks(z, more + tail) == Parsed(rest, tail)
    ensures DecodeBlocks(z, Block(z, chunk) + more + tail) == Parsed(chunk + rest, tail)
  {
    hide DecodeBlocks, Block;
    assert Block(z, chunk) + more + tail == Block(z, chunk) + (more + tail);
    BlockRoundTrip(z, chunk, more + tail);
  }

  lemma EmptyStream(z: Zstd, t: nat, tail: seq<byte>)
    requires t > 0
    ensures DecodeBlocks(z, EncodeStream(z, t, []) + tail) == Parsed([], tail)
  {
    assert ([0] + tail)[1..] == tail;
  }

  /** Reading back what a writer finished returns the bytes and leaves what follows the stream. */
  lemma {:induction false} StreamRoundTrip(z: Zstd, t: nat, data: seq<byte>, tail: seq<byte>)
    requires Lawful(z) && 0 < t < TWO_TO_THE_16
    ensures DecodeBlocks(z, EncodeStream(z, t, data) + tail) == Parsed(data, tail)
    decreases |data|
  {
    hide *;
    if data == [] {
      EmptyStream(z, t, tail);
    } else {
      var n := FirstBlockOf(z, t, data);
      StreamRoundTrip(z, t, data[n..], tail);
      BlockThenStream(z, data[..n], EncodeStream(z, t, data[n..]), data[n..], tail);
      assert data[..n] + data[n..] == data;
    }
  }

  // ---------- items ----------

  /** How one kind of item is serialized. */
  datatype Codec<!T> = Codec(encode: T -> seq<byte>, decode: seq<byte> -> Parsed<T>)

  ghost predicate Progresses<T(!new)>(c: Codec<T>) {
    forall buf :: c.decode(buf).Parsed? ==> |c.decode(buf).rest| < |buf|
  }

  ghost predicate ComesBack<T>(c: Codec<T>, x: T) {
    && |c.encode(x)| > 0
    && forall rest :: c.decode(c.encode(x) + rest) == Parsed(x, rest)
  }

  function EncodeItems<T>(c: Codec<T>, items: seq<T>): seq<byte> {
    if items == [] then [] else EncodeItems(c, items[..|items| - 1]) + c.encode(items[|items| - 1])
  }

  lemma {:induction false} EncodeItemsFront<T>(c: Codec<T>, items: seq<T>)
    requires items != []
    ensures EncodeItems(c, items) == c.encode(items[0]) + EncodeItems(c, items[1..])
  {
    if |items| > 1 {
      EncodeItemsFront(c, items[..|items| - 1]);
      assert items[..|items| - 1][1..] == items[1..][..|items| - 2];
    } else {
      assert items[..0] == [] && items[1..] == [];
    }
  }

  /** All the items of a buffer, or nothing when some bytes make no item. */
  ghost function DecodeItems<T(!new)>(c: Codec<T>, data: seq<byte>): Option<seq<T>>
    requires Progresses(c)
    decreases |data|
  {
    if data == [] then Some([])
    else
      match c.decode(data)
      case Failed => None
      case Parsed(x, rest) =>
        assert c.decode(data).Parsed?;
        match DecodeItems(c, rest)
        case None => None
        case Some(xs) => Some([x] + xs)
  }

  lemma {:induction false} ItemsRoundTrip<T(!new)>(c: Codec<T>, items: seq<T>)
    requires Progresses(c)
    requires forall x | x in items :: ComesBack(c, x)
    ensures DecodeItems(c, EncodeItems(c, items)) == Some(items)
    decreases |items|
  {
    if items != [] {
      EncodeItemsFront(c, items);
      assert ComesBack(c, items[0]);
      ItemsRoundTrip(c, items[1..]);
      assert [items[0]] + items[1..] == items;
    }
  }

  /** Reads the blocks up to the end mark. */
  method ReadBlocks(z: Zstd, buf: seq<byte>) returns (r: Parsed<seq<byte>>)
    ensures r == DecodeBlocks(z, buf)
  {
    var cursor := buf;
    var decompressed: seq<byte> := [];
    ghost var whole := DecodeBlocks(z, buf);
    PrependNothing(whole);
    while true
      invariant whole == PrependData(decompressed, DecodeBlocks(z, cursor))
      decreases |cursor|
    {
      if |cursor| < 1 {
        return Failed;
      }
      var blockType := cursor[0];
      if blockType > 2 {
        return Failed;
      }
      if blockType == 0 {
        assert decompressed + [] == decompressed;
        return Parsed(decompressed, cursor[1..]);
      }
      var lenAndRest := DecodeLe(2, cursor[1..]);
      if lenAndRest.Failed? {
        return Failed;
      }
      var len, rest := lenAndRest.value, lenAndRest.rest;
      if |rest| < len {
        return Failed;
      }
      var chunk := if blockType == 1 then DecompressToBuffer(z, rest[..len]) else Some(rest[..len]);
      if chunk.None? {
        return Failed;
      }
      PrependTwice(decompressed, chunk.value, DecodeBlocks(z, rest[len..]));
      cursor := rest[len..];
      decompressed := decompressed + chunk.value;
    }
  }

  lemma PrependNothing(p: Parsed<seq<byte>>)
    ensures PrependData([], p) == p
  {
    if p.Parsed? {
      assert [] + p.value == p.value;
    }
  }

  lemma PrependTwice(a: seq<byte>, b: seq<byte>, p: Parsed<seq<byte>>)
    ensures PrependData(a, PrependData(b, p)) == PrependData(a + b, p)
  {
    if p.Parsed? {
      assert a + (b + p.value) == (a + b) + p.value;
    }
  }

  /** Reads items until no byte is left. */
  method ReadItems<T(!new)>(c: Codec<T>, data: seq<byte>) returns (r: Option<seq<T>>)
    requires Progresses(c)
    ensures r == DecodeItems(c, data)
  {
    var rest := data;
    var items: seq<T> := [];
    assert forall more: seq<T> :: [] + more == more;
    while rest != []
      invariant match DecodeItems(c, rest)
                case None => DecodeItems(c, data).None?
                case Some(more) => DecodeItems(c, data) == Some(items + more)
      decreases |rest|
    {
      var item := c.decode(rest);
      if item.Failed? {
        return None;
      }
      ghost var sofar := items;
      items := items + [item.value];
      rest := item.rest;
      assert forall more: seq<T> :: sofar + ([item.value] + more) == items + more;
    }
    assert items + [] == items;
    r := Some(items);
  }

  /** The blocks, then the items.  A failure anywhere is a failure of the whole. */
  ghost function DecodeItemStream<T(!new)>(z: Zstd, c: Codec<T>, buf: seq<byte>): Parsed<seq<T>>
    requires Progresses(c)
  {
    match DecodeBlocks(z, buf)
    case Failed => Failed
    case Parsed(data, rest) =>
      match DecodeItems(c, data)
      case None => Failed
      case Some(items) => Parsed(items, rest)
  }

  method DeserializeStream<T(!new)>(z: Zstd, c: Codec<T>, buf: seq<byte>) returns (r: Parsed<seq<T>>)
    requires Progresses(c)
    ensures r == DecodeItemStream(z, c, buf)
  {
    var blocks := ReadBlocks(z, buf);
    if blocks.Failed? {
      return Failed;
    }
    var items := ReadItems(c, blocks.value);
    r := if items.None? then Failed else Parsed(items.value, blocks.rest);
  }

  /** For every list of items, threshold and compressor: what the reader makes of the writer's finished bytes,
      followed by anything, is the items, and it leaves what follows; items may straddle blocks. */
  lemma ItemStreamRoundTrip<T(!new)>(z: Zstd, t: nat, c: Codec<T>, items: seq<T>, tail: seq<byte>)
    requires Lawful(z) && 0 < t < TWO_TO_THE_16 && Progresses(c)
    requires forall x | x in items :: ComesBack(c, x)
    ensures DecodeItemStream(z, c, EncodeStream(z, t, EncodeItems(c, items)) + tail) == Parsed(items, tail)
  {
    StreamRoundTrip(z, t, EncodeItems(c, items), tail);
    ItemsRoundTrip(c, items);
  }

  /** The writer and the reader together. */
  method WriteThenRead<T(!new)>(z: Zstd, t: nat, c: Codec<T>, items: seq<T>, tail: seq<byte>) returns (r: Parsed<seq<T>>)
    requires Lawful(z) && 0 < t < TWO_TO_THE_16 && Progresses(c)
    requires forall x | x in items :: ComesBack(c, x) && |c.encode(x)| < TWO_TO_THE_16
    ensures r == Parsed(items, tail)
  {
    var writer := new CompressedStreamWriter(z, t);
    for i := 0 to |items|
      invariant writer.Valid() && writer.zstd == z && writer.blockThreshold == t
      invariant writer.written == EncodeItems(c, items[..i])
    {
      assert items[..i + 1][..i] == items[..i];
      assert items[i] in items;
      writer.Append(c.encode(items[i]));
    }
    assert items[..|items|] == items;
    var payload := writer.Finish();
    ItemStreamRoundTrip(z, t, c, items, tail);
    r := DeserializeStream(z, c, payload + tail);
  }
}
