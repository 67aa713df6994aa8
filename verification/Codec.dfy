/** The wire format: integers, strings, addresses, node identifiers and delta operations. */
module Codecs {
  import opened Types

  /** What a deserializer makes of a buffer: nothing, or a value and the bytes it left. */
  datatype Parsed<+T> = Failed | Parsed(value: T, rest: seq<byte>)

  // ---------- integers ----------

  function Pow256(w: nat): (p: nat)
    ensures p > 0
  {
    if w == 0 then 1 else 256 * Pow256(w - 1)
  }

  const TWO_TO_THE_16: nat := 0x1_0000
  const TWO_TO_THE_64: nat := 0x1_0000_0000_0000_0000

  function LeBytes(n: nat, w: nat): (bs: seq<byte>)
    ensures |bs| == w
    decreases w, n
  {
    if w == 0 then [] else [n % 256] + LeBytes(n / 256, w - 1)
  }

  function FromLeBytes(bs: seq<byte>): nat {
    if bs == [] then 0 else bs[0] + 256 * FromLeBytes(bs[1..])
  }

  /** Little-endian bytes determine the integer modulo 256^w: a too large one is truncated. */
  lemma {:induction false} LeBytesRoundTrip(n: nat, w: nat)
    ensures FromLeBytes(LeBytes(n, w)) == n % Pow256(w)
    ensures n < Pow256(w) ==> FromLeBytes(LeBytes(n, w)) == n
    decreases w
  {
    if w > 0 {
      LeBytesRoundTrip(n / 256, w - 1);
      var p := Pow256(w - 1);
      assert LeBytes(n, w)[1..] == LeBytes(n / 256, w - 1);
      ModOfQuotient(n, p);
    }
  }

  lemma ModOfQuotient(n: nat, p: nat)
    requires p > 0
    ensures n % (256 * p) == n % 256 + 256 * ((n / 256) % p)
  {
    var q, r := n / 256, n % 256;
    var a, b := q / p, q % p;
    assert n == 256 * (p * a + b) + r;
    assert n == (256 * p) * a + (256 * b + r);
    assert 0 <= 256 * b + r < 256 * p;
    ModIsUnique(n, 256 * p, a, 256 * b + r);
  }

  lemma ModIsUnique(n: nat, m: nat, a: nat, r: nat)
    requires m > 0 && n == m * a + r && r < m
    ensures n % m == r && n / m == a
  {
    var d := n / m - a;
    assert m * (n / m) + n % m == n;
    assert m * d == r - n % m;
    if d >= 1 {
      ProductAtLeast(m, d);
      assert false;
    } else if d <= -1 {
      ProductAtLeast(m, -d);
      assert false;
    }
  }

  lemma ProductAtLeast(m: nat, d: int)
    requires d >= 1
    ensures m * d >= m
  {
  }

  function DecodeLe(w: nat, buf: seq<byte>): Parsed<nat> {
    if |buf| < w then Failed else Parsed(FromLeBytes(buf[..w]), buf[w..])
  }

  lemma LeRoundTrip(n: nat, w: nat, rest: seq<byte>)
    requires n < Pow256(w)
    ensures DecodeLe(w, LeBytes(n, w) + rest) == Parsed(n, rest)
  {
    LeBytesRoundTrip(n, w);
    assert (LeBytes(n, w) + rest)[..w] == LeBytes(n, w);
  }

  lemma Widths()
    ensures Pow256(2) == TWO_TO_THE_16 && Pow256(8) == TWO_TO_THE_64
  {
    assert Pow256(1) == 256 && Pow256(2) == 256 * Pow256(1);
    assert Pow256(3) == 256 * Pow256(2) && Pow256(4) == 256 * Pow256(3);
    assert Pow256(5) == 256 * Pow256(4) && Pow256(6) == 256 * Pow256(5);
    assert Pow256(7) == 256 * Pow256(6) && Pow256(8) == 256 * Pow256(7);
  }

  // ---------- strings and addresses ----------

  /** The length prefix is the length as u16: a longer string does not survive. */
  function EncodeText(t: Text): seq<byte> {
    LeBytes(|t| % TWO_TO_THE_16, 2) + t
  }

  function DecodeText(buf: seq<byte>): Parsed<Text> {
    match DecodeLe(2, buf)
    case Failed => Failed
    case Parsed(len, rest) => if |rest| < len then Failed else Parsed(rest[..len], rest[len..])
  }

  /** A string comes back exactly when it is shorter than 2^16 octets. */
  lemma TextRoundTripExactly(t: Text, rest: seq<byte>)
    ensures DecodeText(EncodeText(t) + rest) == Parsed(t, rest) <==> |t| < TWO_TO_THE_16
  {
    Widths();
    var n := |t| % TWO_TO_THE_16;
    LeRoundTrip(n, 2, t + rest);
    assert EncodeText(t) + rest == LeBytes(n, 2) + (t + rest);
    if |t| < TWO_TO_THE_16 {
      assert (t + rest)[..|t|] == t && (t + rest)[|t|..] == rest;
    }
  }

  function EncodeIp(ip: IpAddr): seq<byte> {
    match ip
    case V4(octets) => [4] + octets
    case V6(octets) => [6] + octets
  }

  function DecodeIp(buf: seq<byte>): Parsed<IpAddr> {
    if |buf| < 1 then Failed
    else if buf[0] == 4 then
      if |buf| < 5 then Failed else Parsed(V4(buf[1..5]), buf[5..])
    else if buf[0] == 6 then
      if |buf| < 17 then Failed else Parsed(V6(buf[1..17]), buf[17..])
    else Failed
  }

  function EncodeAddr(a: SocketAddr): seq<byte> {
    EncodeIp(a.ip) + LeBytes(a.port, 2)
  }

  predicate EncodableAddr(a: SocketAddr) {
    a.port < TWO_TO_THE_16
  }

  function DecodeAddr(buf: seq<byte>): Parsed<SocketAddr> {
    match DecodeIp(buf)
    case Failed => Failed
    case Parsed(ip, rest) =>
      match DecodeLe(2, rest)
      case Failed => Failed
      case Parsed(port, rest') => Parsed(SocketAddr(ip, port), rest')
  }

  lemma AddrRoundTrip(a: SocketAddr, rest: seq<byte>)
    requires EncodableAddr(a)
    ensures DecodeAddr(EncodeAddr(a) + rest) == Parsed(a, rest)
  {
    Widths();
    var tail := LeBytes(a.port, 2) + rest;
    var buf := EncodeIp(a.ip) + tail;
    assert EncodeAddr(a) + rest == buf;
    match a.ip {
      case V4(octets) => assert buf[1..5] == octets && buf[5..] == tail;
      case V6(octets) => assert buf[1..17] == octets && buf[17..] == tail;
    }
    LeRoundTrip(a.port, 2, rest);
  }

  function EncodeId(id: ChitchatId): seq<byte> {
    EncodeText(id.nodeId) + LeBytes(id.generationId, 8) + EncodeAddr(id.gossipAdvertiseAddr)
  }

  predicate EncodableId(id: ChitchatId) {
    |id.nodeId| < TWO_TO_THE_16 && id.generationId < TWO_TO_THE_64 && EncodableAddr(id.gossipAdvertiseAddr)
  }

  function DecodeId(buf: seq<byte>): Parsed<ChitchatId> {
    match DecodeText(buf)
    case Failed => Failed
    case Parsed(nodeId, rest) =>
      match DecodeLe(8, rest)
      case Failed => Failed
      case Parsed(generationId, rest') =>
        match DecodeAddr(rest')
        case Failed => Failed
        case Parsed(addr, rest'') => Parsed(ChitchatId(nodeId, generationId, addr), rest'')
  }

  lemma IdRoundTrip(id: ChitchatId, rest: seq<byte>)
    requires EncodableId(id)
    ensures DecodeId(EncodeId(id) + rest) == Parsed(id, rest)
  {
    Widths();
    var tail2 := EncodeAddr(id.gossipAdvertiseAddr) + rest;
    var tail1 := LeBytes(id.generationId, 8) + tail2;
    assert EncodeId(id) + rest == EncodeText(id.nodeId) + tail1;
    TextRoundTripExactly(id.nodeId, tail1);
    LeRoundTrip(id.generationId, 8, tail2);
    AddrRoundTrip(id.gossipAdvertiseAddr, rest);
  }

  // ---------- delta operations ----------

  datatype DeltaOp =
    | OpNode(chitchatId: ChitchatId, lastGcVersion: Version, fromVersionExcluded: Version)
    | OpKeyValue(mutation: KeyValueMutation)
    | OpSetMaxVersion(maxVersion: Version)

  function StatusCode(s: DeletionStatusMutation): byte {
    match s
    case MutSet => 0
    case MutDelete => 1
    case MutDeleteAfterTtl => 2
  }

  function DecodeStatus(buf: seq<byte>): Parsed<DeletionStatusMutation> {
    if |buf| < 1 then Failed
    else if buf[0] == 0 then Parsed(MutSet, buf[1..])
    else if buf[0] == 1 then Parsed(MutDelete, buf[1..])
    else if buf[0] == 2 then Parsed(MutDeleteAfterTtl, buf[1..])
    else Failed
  }

  function EncodeMutation(m: KeyValueMutation): seq<byte> {
    EncodeText(m.key) + EncodeText(m.value) + LeBytes(m.version, 8) + [StatusCode(m.status)]
  }

  function EncodeOp(op: DeltaOp): seq<byte> {
    match op
    case OpNode(id, gc, from) => [0] + EncodeId(id) + LeBytes(gc, 8) + LeBytes(from, 8)
    case OpKeyValue(m) => [1] + EncodeMutation(m)
    case OpSetMaxVersion(v) => [2] + LeBytes(v, 8)
  }

  predicate EncodableOp(op: DeltaOp) {
    match op
    case OpNode(id, gc, from) => EncodableId(id) && gc < TWO_TO_THE_64 && from < TWO_TO_THE_64
    case OpKeyValue(m) =>
      |m.key| < TWO_TO_THE_16 && |m.value| < TWO_TO_THE_16 && m.version < TWO_TO_THE_64
    case OpSetMaxVersion(v) => v < TWO_TO_THE_64
  }

  function DecodeMutation(buf: seq<byte>): Parsed<KeyValueMutation> {
    match DecodeText(buf)
    case Failed => Failed
    case Parsed(key, rest1) =>
      match DecodeText(rest1)
      case Failed => Failed
      case Parsed(value, rest2) =>
        match DecodeLe(8, rest2)
        case Failed => Failed
        case Parsed(version, rest3) =>
          match DecodeStatus(rest3)
          case Failed => Failed
          case Parsed(status, rest4) => Parsed(KeyValueMutation(key, value, version, status), rest4)
  }

  function DecodeOp(buf: seq<byte>): (p: Parsed<DeltaOp>)
    ensures p.Parsed? ==> |p.rest| < |buf|
  {
    if |buf| < 1 then Failed
    else if buf[0] == 0 then DecodeNodeOp(buf[1..])
    else if buf[0] == 1 then
      match DecodeMutation(buf[1..])
      case Failed => Failed
      case Parsed(m, rest) => Parsed(OpKeyValue(m), rest)
    else if buf[0] == 2 then
      match DecodeLe(8, buf[1..])
      case Failed => Failed
      case Parsed(v, rest) => Parsed(OpSetMaxVersion(v), rest)
    else Failed
  }

  function DecodeNodeOp(buf: seq<byte>): (p: Parsed<DeltaOp>)
    ensures p.Parsed? ==> |p.rest| <= |buf|
  {
    match DecodeId(buf)
    case Failed => Failed
    case Parsed(id, rest1) =>
      match DecodeLe(8, rest1)
      case Failed => Failed
      case Parsed(gc, rest2) =>
        match DecodeLe(8, rest2)
        case Failed => Failed
        case Parsed(from, rest3) => Parsed(OpNode(id, gc, from), rest3)
  }

  lemma MutationRoundTrip(m: KeyValueMutation, rest: seq<byte>)
    requires EncodableOp(OpKeyValue(m))
    ensures DecodeMutation(EncodeMutation(m) + rest) == Parsed(m, rest)
  {
    Widths();
    var tail3 := [StatusCode(m.status)] + rest;
    var tail2 := LeBytes(m.version, 8) + tail3;
    var tail1 := EncodeText(m.value) + tail2;
    assert EncodeMutation(m) + rest == EncodeText(m.key) + tail1;
    assert DecodeText(EncodeText(m.key) + tail1) == Parsed(m.key, tail1) by {
      TextRoundTripExactly(m.key, tail1);
    }
    assert DecodeText(tail1) == Parsed(m.value, tail2) by {
      TextRoundTripExactly(m.value, tail2);
    }
    assert DecodeLe(8, tail2) == Parsed(m.version, tail3) by {
      LeRoundTrip(m.version, 8, tail3);
    }
    assert DecodeStatus(tail3) == Parsed(m.status, rest) by {
      assert tail3[1..] == rest;
    }
  }

  /** Parsing the three fields of a node operation one after the other. */
  lemma NodeOpFields(bytes: seq<byte>, tail1: seq<byte>, tail2: seq<byte>, rest: seq<byte>,
                     id: ChitchatId, gc: Version, from: Version)
    requires DecodeId(bytes) == Parsed(id, tail1)
    requires DecodeLe(8, tail1) == Parsed(gc, tail2)
    requires DecodeLe(8, tail2) == Parsed(from, rest)
    ensures DecodeNodeOp(bytes) == Parsed(OpNode(id, gc, from), rest)
  {
  }

  lemma Regroup(a: seq<byte>, b: seq<byte>, c: seq<byte>, rest: seq<byte>)
    ensures a + b + c + rest == a + (b + (c + rest))
  {
  }

  lemma NodeOpRoundTrip(id: ChitchatId, gc: Version, from: Version, rest: seq<byte>)
    requires EncodableOp(OpNode(id, gc, from))
    ensures DecodeNodeOp(EncodeId(id) + LeBytes(gc, 8) + LeBytes(from, 8) + rest) == Parsed(OpNode(id, gc, from), rest)
  {
    Widths();
    var a, b, c := EncodeId(id), LeBytes(gc, 8), LeBytes(from, 8);
    Regroup(a, b, c, rest);
    IdRoundTrip(id, b + (c + rest));
    LeRoundTrip(gc, 8, c + rest);
    LeRoundTrip(from, 8, rest);
    NodeOpFields(a + b + c + rest, b + (c + rest), c + rest, rest, id, gc, from);
  }

  lemma TaggedRest(tag: byte, body: seq<byte>, rest: seq<byte>)
    ensures ([tag] + body + rest)[0] == tag && ([tag] + body + rest)[1..] == body + rest
  {
  }

  lemma NodeOpIsTagged(id: ChitchatId, gc: Version, from: Version)
    ensures EncodeOp(OpNode(id, gc, from)) == [0] + (EncodeId(id) + LeBytes(gc, 8) + LeBytes(from, 8))
  {
    Regroup([0], EncodeId(id), LeBytes(gc, 8), LeBytes(from, 8));
    Regroup(EncodeId(id), LeBytes(gc, 8), LeBytes(from, 8), []);
  }

  /** Every operation within the format's limits comes back, and the bytes after it are left alone. */
  lemma OpRoundTrip(op: DeltaOp, rest: seq<byte>)
    requires EncodableOp(op)
    ensures DecodeOp(EncodeOp(op) + rest) == Parsed(op, rest)
  {
    match op
    case OpNode(id, gc, from) =>
      NodeOpIsTagged(id, gc, from);
      TaggedRest(0, EncodeId(id) + LeBytes(gc, 8) + LeBytes(from, 8), rest);
      NodeOpRoundTrip(id, gc, from, rest);
    case OpKeyValue(m) =>
      TaggedRest(1, EncodeMutation(m), rest);
      MutationRoundTrip(m, rest);
    case OpSetMaxVersion(v) =>
      TaggedRest(2, LeBytes(v, 8), rest);
      Widths();
      LeRoundTrip(v, 8, rest);
  }

  // ---------- announced lengths ----------

  function IpLen(ip: IpAddr): nat {
    1 + match ip { case V4(_) => 4 case V6(_) => 16 }
  }

  function IdLen(id: ChitchatId): nat {
    2 + |id.nodeId| + 8 + IpLen(id.gossipAdvertiseAddr.ip) + 2
  }

  function OpLen(op: DeltaOp): nat {
    1 + match op {
      case OpNode(id, _, _) => IdLen(id) + 8 + 8
      case OpKeyValue(m) => 2 + |m.key| + 2 + |m.value| + 8 + 1
      case OpSetMaxVersion(_) => 8
    }
  }

  /** `serialized_len` announces the number of bytes `serialize` writes. */
  lemma OpLenIsExact(op: DeltaOp)
    ensures |EncodeOp(op)| == OpLen(op)
  {
  }
}
