/** The bytes on the wire: what the encodings look like, and that nothing else parses. */
module Formats {
  import opened Types
  import opened Codecs
  import opened Streams

  // ---------- nothing else parses ----------

  /** Any bytes are the little-endian bytes of a number of their width. */
  lemma {:induction false} BytesAreLeBytes(bs: seq<byte>)
    ensures FromLeBytes(bs) < Pow256(|bs|) && LeBytes(FromLeBytes(bs), |bs|) == bs
  {
    if bs != [] {
      BytesAreLeBytes(bs[1..]);
      var low, high := bs[0] as nat, FromLeBytes(bs[1..]);
      ModIsUnique(low + 256 * high, 256, high, low);
      assert bs == [bs[0]] + bs[1..];
    }
  }

  lemma LeParses(w: nat, buf: seq<byte>)
    ensures DecodeLe(w, buf).Failed? <==> |buf| < w
    ensures DecodeLe(w, buf).Parsed? ==>
              DecodeLe(w, buf).value < Pow256(w) && buf == LeBytes(DecodeLe(w, buf).value, w) + DecodeLe(w, buf).rest
  {
    if w <= |buf| {
      BytesAreLeBytes(buf[..w]);
      assert buf == buf[..w] + buf[w..];
    }
  }

  lemma TextParses(buf: seq<byte>)
    ensures match DecodeText(buf)
            case Failed => true
            case Parsed(t, rest) => |t| < TWO_TO_THE_16 && buf == EncodeText(t) + rest
  {
    Widths();
    LeParses(2, buf);
    match DecodeText(buf)
    case Failed =>
    case Parsed(t, rest) =>
      var after := DecodeLe(2, buf).rest;
      assert after == t + rest;
      assert buf == LeBytes(|t|, 2) + (t + rest);
  }

  lemma IpParses(buf: seq<byte>)
    ensures match DecodeIp(buf)
            case Failed => true
            case Parsed(ip, rest) => buf == EncodeIp(ip) + rest
  {
    match DecodeIp(buf)
    case Failed =>
    case Parsed(V4(octets), rest) => assert buf == [buf[0]] + octets + rest;
    case Parsed(V6(octets), rest) => assert buf == [buf[0]] + octets + rest;
  }

  lemma AddrParses(buf: seq<byte>)
    ensures match DecodeAddr(buf)
            case Failed => true
            case Parsed(a, rest) => EncodableAddr(a) && buf == EncodeAddr(a) + rest
  {
    hide LeBytes, DecodeLe, DecodeIp, EncodeIp;
    Widths();
    IpParses(buf);
    match DecodeIp(buf)
    case Failed =>
    case Parsed(ip, after) =>
      LeParses(2, after);
      match DecodeLe(2, after)
      case Failed =>
      case Parsed(port, rest) => Append(EncodeIp(ip), LeBytes(port, 2), rest);
  }

  lemma Append(a: seq<byte>, b: seq<byte>, c: seq<byte>)
    ensures a + (b + c) == (a + b) + c
  {
  }

  lemma IdParses(buf: seq<byte>)
    ensures match DecodeId(buf)
            case Failed => true
            case Parsed(id, rest) => EncodableId(id) && buf == EncodeId(id) + rest
  {
    hide LeBytes, DecodeLe, DecodeText, EncodeText, DecodeAddr, EncodeAddr, EncodableAddr;
    Widths();
    TextParses(buf);
    match DecodeText(buf)
    case Failed =>
    case Parsed(nodeId, after1) =>
      LeParses(8, after1);
      match DecodeLe(8, after1)
      case Failed =>
      case Parsed(generationId, after2) =>
        AddrParses(after2);
        match DecodeAddr(after2)
        case Failed =>
        case Parsed(addr, rest) =>
          Append(LeBytes(generationId, 8), EncodeAddr(addr), rest);
          Append(EncodeText(nodeId), LeBytes(generationId, 8) + EncodeAddr(addr), rest);
          Append(EncodeText(nodeId), LeBytes(generationId, 8), EncodeAddr(addr));
  }

  lemma StatusParses(buf: seq<byte>)
    ensures match DecodeStatus(buf)
            case Failed => true
            case Parsed(s, rest) => buf == [StatusCode(s)] + rest
  {
  }

  lemma MutationParses(buf: seq<byte>)
    ensures match DecodeMutation(buf)
            case Failed => true
            case Parsed(m, rest) => EncodableOp(OpKeyValue(m)) && buf == EncodeMutation(m) + rest
  {
    hide LeBytes, DecodeLe, DecodeText, EncodeText, DecodeStatus, StatusCode;
    Widths();
    TextParses(buf);
    match DecodeText(buf)
    case Failed =>
    case Parsed(key, after1) =>
      TextParses(after1);
      match DecodeText(after1)
      case Failed =>
      case Parsed(value, after2) =>
        LeParses(8, after2);
        match DecodeLe(8, after2)
        case Failed =>
        case Parsed(version, after3) =>
          StatusParses(after3);
          match DecodeStatus(after3)
          case Failed =>
          case Parsed(status, rest) =>
            FourParts(EncodeText(key), EncodeText(value), LeBytes(version, 8), [StatusCode(status)], rest);
  }

  lemma FourParts(a: seq<byte>, b: seq<byte>, c: seq<byte>, d: seq<byte>, rest: seq<byte>)
    ensures a + (b + (c + (d + rest))) == (a + b + c + d) + rest
  {
  }

  lemma NodeOpParses(buf: seq<byte>)
    ensures match DecodeNodeOp(buf)
            case Failed => true
            case Parsed(op, rest) => op.OpNode? && EncodableOp(op) && [0] + buf == EncodeOp(op) + rest
  {
    hide LeBytes, DecodeLe, DecodeId, EncodeId, EncodableId;
    Widths();
    IdParses(buf);
    match DecodeId(buf)
    case Failed =>
    case Parsed(id, after1) =>
      LeParses(8, after1);
      match DecodeLe(8, after1)
      case Failed =>
      case Parsed(gc, after2) =>
        LeParses(8, after2);
        match DecodeLe(8, after2)
        case Failed =>
        case Parsed(from, rest) => FourParts([0], EncodeId(id), LeBytes(gc, 8), LeBytes(from, 8), rest);
  }

  /** Exactly the encodings of operations parse: whatever parses is the encoding of what it parses to, followed by what
      is left. */
  lemma OpParsesExactly(buf: seq<byte>, op: DeltaOp, rest: seq<byte>)
    ensures DecodeOp(buf) == Parsed(op, rest) <==> EncodableOp(op) && buf == EncodeOp(op) + rest
  {
    if EncodableOp(op) && buf == EncodeOp(op) + rest {
      OpRoundTrip(op, rest);
    } else {
      OnlyEncodingsParse(buf);
    }
  }

  lemma OnlyEncodingsParse(buf: seq<byte>)
    ensures match DecodeOp(buf)
            case Failed => true
            case Parsed(op, rest) => EncodableOp(op) && buf == EncodeOp(op) + rest
  {
    hide LeBytes, DecodeLe, DecodeNodeOp, DecodeMutation, EncodeMutation, EncodeId, EncodableId;
    if buf != [] {
      assert buf == [buf[0]] + buf[1..];
      Widths();
      NodeOpParses(buf[1..]);
      MutationParses(buf[1..]);
      LeParses(8, buf[1..]);
      match DecodeOp(buf)
      case Failed =>
      case Parsed(OpNode(_, _, _), rest) =>
      case Parsed(OpKeyValue(m), rest) => Append([1], EncodeMutation(m), rest);
      case Parsed(OpSetMaxVersion(v), rest) => Append([2], LeBytes(v, 8), rest);
    }
  }

  // ---------- what they look like ----------

  /** Little-endian: byte i counts 256^i. */
  lemma {:induction false} LittleEndian(n: nat, w: nat, i: nat)
    requires i < w
    ensures LeBytes(n, w)[i] == (n / Pow256(i)) % 256
    decreases w
  {
    if i > 0 {
      LittleEndian(n / 256, w - 1, i - 1);
      DivideTwice(n, Pow256(i - 1));
    }
  }

  lemma DivideTwice(n: nat, p: nat)
    requires p > 0
    ensures (n / 256) / p == n / (256 * p)
  {
    var q, r := n / 256, n % 256;
    var a, b := q / p, q % p;
    assert n == 256 * (p * a + b) + r && 256 * (p * a + b) == (256 * p) * a + 256 * b;
    ModIsUnique(n, 256 * p, a, 256 * b + r);
  }

  /** A node is 0, an entry 1, a maxVersion 2; of an entry the last byte is 0 if it is set, 1 if it is deleted, 2 if it
      is to expire. */
  lemma OperationFormat(op: DeltaOp)
    ensures var bytes := EncodeOp(op);
            match op
            case OpNode(id, gc, from) =>
              && bytes[0] == 0 && |bytes| == 1 + |EncodeId(id)| + 16
              && bytes[1 + |EncodeId(id)|..] == LeBytes(gc, 8) + LeBytes(from, 8) && bytes[1..1 + |EncodeId(id)|] == EncodeId(id)
            case OpKeyValue(m) =>
              && bytes[0] == 1 && |bytes| == 14 + |m.key| + |m.value|
              && bytes[3..3 + |m.key|] == m.key && bytes[5 + |m.key|..5 + |m.key| + |m.value|] == m.value
              && bytes[5 + |m.key| + |m.value|..13 + |m.key| + |m.value|] == LeBytes(m.version, 8)
              && bytes[|bytes| - 1] == (match m.status case MutSet => 0 case MutDelete => 1 case MutDeleteAfterTtl => 2)
            case OpSetMaxVersion(v) => bytes[0] == 2 && bytes[1..] == LeBytes(v, 8)
  {
    hide LeBytes, EncodeId;
    match op
    case OpNode(id, gc, from) => FourParts([0], EncodeId(id), LeBytes(gc, 8), LeBytes(from, 8), []);
    case _ =>
  }

  /** An address is 4 or 6, the octets, and the port. */
  lemma AddressFormat(a: SocketAddr)
    ensures a.ip.V4? ==> EncodeAddr(a) == [4] + a.ip.octets4 + LeBytes(a.port, 2)
    ensures a.ip.V6? ==> EncodeAddr(a) == [6] + a.ip.octets6 + LeBytes(a.port, 2)
  {
    hide LeBytes;
  }

  /** An id is the name with its length in two bytes, the generation in eight, and the address. */
  lemma IdFormat(id: ChitchatId)
    requires |id.nodeId| < TWO_TO_THE_16
    ensures EncodeId(id)
            == LeBytes(|id.nodeId|, 2) + id.nodeId + (LeBytes(id.generationId, 8) + EncodeAddr(id.gossipAdvertiseAddr))
  {
    hide LeBytes, EncodeAddr;
  }

  /** A block is 1 and what the compressor made of the chunk, if it made anything; or 2 and the chunk as it is; with the
      length in two bytes before them.  Every chunk but the last has t bytes. */
  lemma BlockFormat(z: Zstd, t: nat, chunk: seq<byte>, data: seq<byte>)
    requires chunk != [] && (|chunk| == t || (|chunk| < t && data == []))
    ensures z.compress(chunk).Some? ==>
              EncodeStream(z, t, chunk + data)
              == [1] + LeBytes(|z.compress(chunk).value|, 2) + z.compress(chunk).value + EncodeStream(z, t, data)
    ensures z.compress(chunk).None? ==>
              EncodeStream(z, t, chunk + data) == [2] + LeBytes(|chunk|, 2) + chunk + EncodeStream(z, t, data)
  {
    assert (chunk + data)[..|chunk|] == chunk && (chunk + data)[|chunk|..] == data;
  }

  lemma EndOfStream(z: Zstd, t: nat)
    requires t > 0
    ensures EncodeStream(z, t, []) == [0]
  {
  }
}
