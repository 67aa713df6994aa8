/** PKCS#12 key derivation: the reversed carry loop of the implementation against the definition in section B.2
    (Appendix B) of RFC 7292, for SHA-1 with blocks of 64 octets. */
module Pkcs12 {
  import opened Types
  import opened Codecs

  const V: nat := 64
  const U: nat := 20

  type Digest20 = s: seq<byte> | |s| == U witness seq(20, _ => 0)

  /** The hash function H; SHA-1 in the source. */
  type Hash = seq<byte> -> Digest20

  // ---------- the definition ----------

  /** Copies of `s` one after the other, the last one cut, n octets in all; nothing when `s` is empty. */
  function Copies(s: seq<byte>, n: nat): seq<byte> {
    if s == [] || n == 0 then []
    else if n <= |s| then s[..n]
    else s + Copies(s, n - |s|)
  }

  /** v * ceil(n / v) */
  function PaddedLen(n: nat): nat {
    V * ((n + V - 1) / V)
  }

  /** H applied r times. */
  function HashTimes(h: Hash, r: nat, x: seq<byte>): seq<byte> {
    if r == 0 then x else h(HashTimes(h, r - 1, x))
  }

  /** An octet string as a number, most significant octet first. */
  function FromBe(bs: seq<byte>): nat {
    if bs == [] then 0 else 256 * FromBe(bs[..|bs| - 1]) + bs[|bs| - 1]
  }

  function ToBe(n: nat, w: nat): (bs: seq<byte>)
    ensures |bs| == w
    decreases w, n
  {
    if w == 0 then [] else ToBe(n / 256, w - 1) + [n % 256]
  }

  /** I_j := (I_j + B + 1) mod 2^v, for every block of v octets. */
  function NextBlock(block: seq<byte>, b: seq<byte>): seq<byte> {
    ToBe((FromBe(block) + FromBe(b) + 1) % Pow256(V), V)
  }

  function NextBlocks(i: seq<byte>, b: seq<byte>): seq<byte> {
    if |i| < V then [] else NextBlock(i[..V], b) + NextBlocks(i[V..], b)
  }

  /** A_1 || ... || A_c, starting from the given I. */
  function Rounds(h: Hash, r: nat, d: seq<byte>, i: seq<byte>, c: nat): seq<byte>
    decreases c
  {
    if c == 0 then []
    else
      var a := HashTimes(h, r, d + i);
      a + Rounds(h, r, d, NextBlocks(i, Copies(a, V)), c - 1)
  }

  function Diversifier(id: byte): seq<byte> {
    seq(V, _ => id)
  }

  function SaltAndPassword(pass: seq<byte>, salt: seq<byte>): seq<byte> {
    Copies(salt, PaddedLen(|salt|)) + Copies(pass, PaddedLen(|pass|))
  }

  /** Section B.2 of RFC 7292: the first `size` octets of c = ceil(size / u) rounds. */
  function DerivedKey(h: Hash, pass: seq<byte>, salt: seq<byte>, r: nat, id: byte, size: nat): (k: seq<byte>)
    ensures |k| == size
  {
    var a := Rounds(h, r, Diversifier(id), SaltAndPassword(pass, salt), (size + U - 1) / U);
    EnoughRounds(h, r, Diversifier(id), SaltAndPassword(pass, salt), (size + U - 1) / U);
    a[..size]
  }

  lemma {:induction false} EnoughRounds(h: Hash, r: nat, d: seq<byte>, i: seq<byte>, c: nat)
    requires |d| == V
    ensures |Rounds(h, r, d, i, c)| >= U * c
    decreases c
  {
    if c > 0 {
      var a := HashTimes(h, r, d + i);
      EnoughRounds(h, r, d, NextBlocks(i, Copies(a, V)), c - 1);
      assert |a| >= U;
    }
  }

  // ---------- cycling iterators ----------

  /** `s.iter().cycle().take(n)` */
  function CycleTake(s: seq<byte>, n: nat): seq<byte> {
    if s == [] then [] else seq(n, k requires 0 <= k < n => s[k % |s|])
  }

  lemma {:induction false} CycleIsCopies(s: seq<byte>, n: nat)
    ensures CycleTake(s, n) == Copies(s, n)
    decreases n
  {
    if s != [] && n > |s| {
      var m := n - |s|;
      CycleIsCopies(s, m);
      forall k | 0 <= k < n ensures CycleTake(s, n)[k] == (s + CycleTake(s, m))[k] {
        if k >= |s| {
          ModIsUnique(k, |s|, (k - |s|) / |s| + 1, (k - |s|) % |s|);
        } else {
          ModIsUnique(k, |s|, 0, k);
        }
      }
    } else if s != [] {
      forall k | 0 <= k < n ensures CycleTake(s, n)[k] == s[k] {
        ModIsUnique(k, |s|, 0, k);
      }
    }
  }

  lemma {:induction false} CopiesLength(s: seq<byte>, n: nat)
    ensures |Copies(s, n)| == if s == [] then 0 else n
    decreases n
  {
    if s != [] && n > |s| {
      CopiesLength(s, n - |s|);
    }
  }

  // ---------- big-endian arithmetic ----------

  lemma {:induction false} FromBeFront(x: byte, bs: seq<byte>)
    ensures FromBe([x] + bs) == x * Pow256(|bs|) + FromBe(bs)
  {
    if bs == [] {
      assert [x] + bs == [x];
      assert FromBe([x]) == 256 * FromBe([]) + x;
    } else {
      var init, last := bs[..|bs| - 1], bs[|bs| - 1];
      assert ([x] + bs)[..|bs|] == [x] + init;
      FromBeFront(x, init);
      assert 256 * (x * Pow256(|init|)) == x * Pow256(|bs|);
    }
  }

  lemma {:induction false} FromBeBound(bs: seq<byte>)
    ensures FromBe(bs) < Pow256(|bs|)
  {
    if bs != [] {
      FromBeBound(bs[..|bs| - 1]);
    }
  }

  lemma {:induction false} ToBeOfFromBe(bs: seq<byte>)
    ensures ToBe(FromBe(bs), |bs|) == bs
  {
    if bs != [] {
      var init := bs[..|bs| - 1];
      ToBeOfFromBe(init);
      ModIsUnique(FromBe(bs), 256, FromBe(init), bs[|bs| - 1]);
    }
  }

  /** One step of the carry loop: two overflowing additions of octets make an exact sum and carry. */
  function AddWithCarry(x: byte, y: byte, inc: byte): (byte, byte)
    requires inc <= 1
  {
    var (s2, inc2) := ((x + y) % 256, x + y >= 256);
    var (s3, inc3) := ((s2 + inc) % 256, s2 + inc >= 256);
    (s3, if inc2 || inc3 then 1 else 0)
  }

  lemma CarryIsExact(x: byte, y: byte, inc: byte)
    requires inc <= 1
    ensures var (s, out) := AddWithCarry(x, y, inc);
            out <= 1 && s + 256 * out == x + y + inc
  {
  }

  /** The low octets `sum` of a block, with the carry out, are those of old + b + 1. */
  ghost predicate PartialSum(before: seq<byte>, b: seq<byte>, sum: seq<byte>, inc: nat) {
    && |before| == |b| == |sum|
    && FromBe(sum) + inc * Pow256(|sum|) == FromBe(before) + FromBe(b) + 1
  }

  lemma CarryStep(before: seq<byte>, b: seq<byte>, sum: seq<byte>, inc: byte, x: byte, y: byte)
    requires inc <= 1 && PartialSum(before, b, sum, inc)
    ensures var (s, out) := AddWithCarry(x, y, inc);
            PartialSum([x] + before, [y] + b, [s] + sum, out)
  {
    var (s, out) := AddWithCarry(x, y, inc);
    CarryIsExact(x, y, inc);
    var p := Pow256(|sum|);
    FromBeFront(s, sum);
    FromBeFront(x, before);
    FromBeFront(y, b);
    assert Pow256(|[s] + sum|) == 256 * p;
    assert s * p + out * (256 * p) == x * p + y * p + inc * p by {
      Distribute(s, out, x, y, inc, p);
    }
  }

  lemma Distribute(s: nat, out: nat, x: nat, y: nat, inc: nat, p: nat)
    requires s + 256 * out == x + y + inc
    ensures s * p + out * (256 * p) == x * p + y * p + inc * p
  {
    assert (s + 256 * out) * p == s * p + out * (256 * p);
    assert (x + y + inc) * p == x * p + y * p + inc * p;
  }

  /** A block whose carry loop has run through is the block of the definition; the last carry is dropped. */
  lemma CompleteBlock(before: seq<byte>, b: seq<byte>, sum: seq<byte>, inc: byte)
    requires inc <= 1 && PartialSum(before, b, sum, inc) && |sum| == V
    ensures sum == NextBlock(before, b)
  {
    FromBeBound(sum);
    ModIsUnique(FromBe(before) + FromBe(b) + 1, Pow256(V), inc, FromBe(sum));
    ToBeOfFromBe(sum);
  }

  // ---------- the carry loop ----------

  /** After k octets from the right: whole blocks are done, the octets of the current block make a partial sum,
      the others are untouched. */
  ghost predicate CarriedSoFar(before: seq<byte>, now: seq<byte>, b: seq<byte>, k: nat, blocks: nat, t: nat, inc: nat) {
    && |before| == |now| && |b| == V
    && k == V * blocks + t && t < V && k <= |now|
    && var pos, end := |now| - k, |now| - V * blocks;
       && now[..pos] == before[..pos]
       && now[end..] == NextBlocks(before[end..], b)
       && (t > 0 ==> PartialSum(before[pos..end], b[V - t..], now[pos..end], inc))
  }

  lemma NothingSummed()
    ensures PartialSum([], [], [], 1)
  {
  }

  /** The partial sum grows by one octet to the left. */
  lemma PartialStep(before: seq<byte>, now: seq<byte>, b: seq<byte>, pos: nat, end: nat, t: nat, inc: byte)
    requires |before| == |now| && |b| == V && t < V && end == pos + 1 + t <= |now| && inc <= 1
    requires before[pos] == now[pos]
    requires if t == 0 then inc == 1 else PartialSum(before[pos + 1..end], b[V - t..], now[pos + 1..end], inc)
    ensures var (s, out) := AddWithCarry(now[pos], b[V - 1 - t], inc);
            PartialSum(before[pos..end], b[V - 1 - t..], now[pos := s][pos..end], out)
  {
    hide PartialSum, AddWithCarry;
    var (s, out) := AddWithCarry(now[pos], b[V - 1 - t], inc);
    NothingSummed();
    CarryStep(before[pos + 1..end], b[V - t..], now[pos + 1..end], inc, before[pos], b[V - 1 - t]);
    assert before[pos..end] == [before[pos]] + before[pos + 1..end];
    assert b[V - 1 - t..] == [b[V - 1 - t]] + b[V - t..];
    assert now[pos := s][pos..end] == [s] + now[pos + 1..end];
  }

  lemma BlockDone(before: seq<byte>, now: seq<byte>, b: seq<byte>, pos: nat, inc: byte)
    requires |before| == |now| && |b| == V && pos + V <= |now| && inc <= 1
    requires PartialSum(before[pos..pos + V], b, now[pos..pos + V], inc)
    requires now[pos + V..] == NextBlocks(before[pos + V..], b)
    ensures now[pos..] == NextBlocks(before[pos..], b)
  {
    hide PartialSum, NextBlock;
    CompleteBlock(before[pos..pos + V], b, now[pos..pos + V], inc);
    assert before[pos..][..V] == before[pos..pos + V] && before[pos..][V..] == before[pos + V..];
    assert now[pos..] == now[pos..pos + V] + now[pos + V..];
  }

  lemma CarriedStep(before: seq<byte>, now: seq<byte>, b: seq<byte>, k: nat, blocks: nat, t: nat, inc: byte)
    requires CarriedSoFar(before, now, b, k, blocks, t, inc) && k < |now| && inc <= 1
    requires t == 0 ==> inc == 1
    ensures var pos := |now| - k - 1;
            var (s, out) := AddWithCarry(now[pos], b[V - 1 - t], inc);
            var now' := now[pos := s];
            if t + 1 < V then CarriedSoFar(before, now', b, k + 1, blocks, t + 1, out)
            else CarriedSoFar(before, now', b, k + 1, blocks + 1, 0, out)
  {
    hide PartialSum, AddWithCarry, NextBlocks;
    var pos, end := |now| - k - 1, |now| - V * blocks;
    var (s, out) := AddWithCarry(now[pos], b[V - 1 - t], inc);
    var now' := now[pos := s];
    assert now[pos] == now[..pos + 1][pos] && before[pos] == before[..pos + 1][pos];
    PartialStep(before, now, b, pos, end, t, inc);
    assert now'[..pos] == now[..pos + 1][..pos] && before[..pos] == before[..pos + 1][..pos];
    assert now'[end..] == now[end..];
    if t + 1 == V {
      CarryIsExact(now[pos], b[0], inc);
      assert b[0..] == b;
      BlockDone(before, now', b, pos, out);
    }
  }

  /** Adds B + 1 to every block of `i` in place, right to left, one octet at a time. */
  method AddToBlocks(i: array<byte>, b: seq<byte>)
    requires i.Length % V == 0 && |b| == V
    modifies i
    ensures i[..] == NextBlocks(old(i[..]), b)
  {
    hide PartialSum, NextBlocks, AddWithCarry, CarriedSoFar;
    ghost var before := i[..];
    var inc: byte := 1;
    ghost var blocks: nat, t: nat := 0, 0;
    NothingCarried(before, b);
    for k := 0 to i.Length
      invariant inc <= 1
      invariant CarriedSoFar(before, i[..], b, k, blocks, t, inc)
    {
      PlaceOf(before, i[..], b, k, blocks, t, inc);
      if k % V == 0 {
        inc := 1;
      }
      ghost var now := i[..];
      CarriedStep(before, now, b, k, blocks, t, inc);
      var pos := i.Length - 1 - k;
      CarryIsExact(i[pos], b[V - 1 - k % V], inc);
      var (s, out) := AddWithCarry(i[pos], b[V - 1 - k % V], inc);
      i[pos] := s;
      inc := out;
      assert i[..] == now[pos := s];
      if t + 1 < V {
        t := t + 1;
      } else {
        blocks, t := blocks + 1, 0;
      }
    }
    AllCarried(before, i[..], b, blocks, t, inc);
  }

  lemma PlaceOf(before: seq<byte>, now: seq<byte>, b: seq<byte>, k: nat, blocks: nat, t: nat, inc: nat)
    requires CarriedSoFar(before, now, b, k, blocks, t, inc)
    ensures k % V == t < V
    ensures t == 0 ==> CarriedSoFar(before, now, b, k, blocks, t, 1)
  {
    ModIsUnique(k, V, blocks, t);
  }

  lemma AllCarried(before: seq<byte>, now: seq<byte>, b: seq<byte>, blocks: nat, t: nat, inc: nat)
    requires CarriedSoFar(before, now, b, |now|, blocks, t, inc) && |now| % V == 0
    ensures now == NextBlocks(before, b)
  {
    PlaceOf(before, now, b, |now|, blocks, t, inc);
    assert now[0..] == now && before[0..] == before;
  }

  lemma NothingCarried(before: seq<byte>, b: seq<byte>)
    requires |b| == V
    ensures CarriedSoFar(before, before, b, 0, 0, 0, 1)
  {
    assert before[|before|..] == [];
  }

  // ---------- the derivation ----------

  method Core(h: Hash, d: seq<byte>, i: seq<byte>, a: seq<byte>, iterations: nat) returns (ai: seq<byte>, a': seq<byte>)
    ensures ai == HashTimes(h, iterations, d + i)
    ensures a' == a + ai
  {
    ai := d + i;
    for n := 0 to iterations
      invariant ai == HashTimes(h, n, d + i)
    {
      ai := h(ai);
    }
    a' := a + ai;
  }

  lemma PaddedLenIsWhole(n: nat)
    ensures PaddedLen(n) % V == 0
  {
  }

  lemma {:induction false} NextBlocksLength(i: seq<byte>, b: seq<byte>)
    requires |i| % V == 0
    ensures |NextBlocks(i, b)| == |i|
    decreases |i|
  {
    if |i| >= V {
      NextBlocksLength(i[V..], b);
    }
  }

  /** `pbepkcs12sha1` computes the key of RFC 7292, for every password, salt, iteration count, id and size. */
  method DeriveKey(h: Hash, pass: seq<byte>, salt: seq<byte>, iterations: nat, id: byte, size: nat) returns (key: seq<byte>)
    ensures key == DerivedKey(h, pass, salt, iterations, id, size)
    ensures |key| == size
  {
    hide NextBlocks, HashTimes, Copies, CycleTake, SaltAndPassword, Rounds;
    var d := seq(V, _ => id);
    var s := CycleTake(salt, PaddedLen(|salt|));
    var p := CycleTake(pass, PaddedLen(|pass|));
    ghost var i0 := SaltAndPassword(pass, salt);
    StartsWithSaltAndPassword(pass, salt);
    var i := new byte[|s + p|](k requires 0 <= k < |s + p| => (s + p)[k]);
    assert i[..] == i0;
    var c := (size + U - 1) / U;
    var a: seq<byte> := [];
    ghost var all := Rounds(h, iterations, d, i0, c);
    var n := 1;
    while n < c
      invariant i.Length == |i0|
      invariant 1 <= n && (1 <= c ==> n <= c)
      invariant c == 0 ==> a == []
      invariant 1 <= c ==> a + Rounds(h, iterations, d, i[..], c - n + 1) == all
    {
      ghost var now, a0 := i[..], a;
      var ai;
      ai, a := Core(h, d, i[..], a, iterations);
      RoundFirst(h, iterations, d, now, c - n + 1, a0);
      var b := CycleTake(ai, V);
      AddToBlocks(i, b);
      n := n + 1;
    }
    RoundFirst(h, iterations, d, i[..], 1, a);
    EnoughRounds(h, iterations, d, i0, c);
    var last;
    last, a := Core(h, d, i[..], a, iterations);
    key := a[..Min(size, |a|)];
  }

  /** The first of c rounds, put after what earlier rounds gave. */
  lemma RoundFirst(h: Hash, r: nat, d: seq<byte>, i: seq<byte>, c: nat, a: seq<byte>)
    requires c > 0 && |d| == V
    ensures var ai := HashTimes(h, r, d + i);
            && |CycleTake(ai, V)| == V
            && a + Rounds(h, r, d, i, c) == (a + ai) + Rounds(h, r, d, NextBlocks(i, CycleTake(ai, V)), c - 1)
    ensures c == 1 ==> a + Rounds(h, r, d, i, c) == a + HashTimes(h, r, d + i)
  {
    hide NextBlocks;
    var ai := HashTimes(h, r, d + i);
    HashNotEmpty(h, r, d + i);
    CycleIsCopies(ai, V);
    CopiesLength(ai, V);
    assert a + (ai + Rounds(h, r, d, NextBlocks(i, Copies(ai, V)), c - 1))
        == (a + ai) + Rounds(h, r, d, NextBlocks(i, Copies(ai, V)), c - 1);
    assert ai + [] == ai;
  }

  lemma HashNotEmpty(h: Hash, r: nat, x: seq<byte>)
    requires x != []
    ensures HashTimes(h, r, x) != []
  {
  }

  lemma StartsWithSaltAndPassword(pass: seq<byte>, salt: seq<byte>)
    ensures CycleTake(salt, PaddedLen(|salt|)) + CycleTake(pass, PaddedLen(|pass|)) == SaltAndPassword(pass, salt)
    ensures |SaltAndPassword(pass, salt)| % V == 0
  {
    CycleIsCopies(salt, PaddedLen(|salt|));
    CycleIsCopies(pass, PaddedLen(|pass|));
    CopiesLength(salt, PaddedLen(|salt|));
    CopiesLength(pass, PaddedLen(|pass|));
    PaddedLenIsWhole(|salt|);
    PaddedLenIsWhole(|pass|);
  }

  // ---------- the key, octet by octet ----------

  /** What is repeated to fill blocks: nothing, or whole blocks of it, as few as hold it. */
  predicate FillsBlocks(filled: seq<byte>, s: seq<byte>) {
    && (s == [] ==> filled == [])
    && (s != [] ==> |filled| % 64 == 0 && |s| <= |filled| < |s| + 64 && forall k | 0 <= k < |filled| :: filled[k] == s[k % |s|])
  }

  lemma CopiesFillBlocks(s: seq<byte>)
    ensures FillsBlocks(Copies(s, PaddedLen(|s|)), s)
  {
    CycleIsCopies(s, PaddedLen(|s|));
    var q := (|s| + 63) / 64;
    ModIsUnique(64 * q, 64, q, 0);
  }

  /** The i-th application of the hash. */
  lemma {:induction false} HashTimesAdds(h: Hash, q: nat, r: nat, x: seq<byte>)
    ensures HashTimes(h, q + r, x) == HashTimes(h, q, HashTimes(h, r, x))
    ensures HashTimes(h, 0, x) == x && HashTimes(h, 1, x) == h(x)
  {
    if q > 0 {
      HashTimesAdds(h, q - 1, r, x);
    } else {
      assert HashTimes(h, 1, x) == h(HashTimes(h, 0, x));
    }
  }

  function BlockAt(i: seq<byte>, j: nat): seq<byte>
    requires 64 * (j + 1) <= |i|
  {
    i[64 * j..64 * j + 64]
  }

  /** Block j of `next` is that of `i` plus B plus 1, modulo 2^512. */
  predicate BlockFollows(i: seq<byte>, b: seq<byte>, next: seq<byte>, j: nat)
    requires 64 * (j + 1) <= |i|
  {
    64 * (j + 1) <= |next| && FromBe(BlockAt(next, j)) == (FromBe(BlockAt(i, j)) + FromBe(b) + 1) % Pow256(64)
  }

  lemma LaterBlockFollows(i: seq<byte>, b: seq<byte>, first: seq<byte>, rest: seq<byte>, j: nat)
    requires |first| == 64 && 0 < j && 64 * (j + 1) <= |i| && BlockFollows(i[64..], b, rest, j - 1)
    ensures BlockFollows(i, b, first + rest, j)
  {
    hide FromBe, Pow256;
    assert BlockAt(i, j) == BlockAt(i[64..], j - 1) && BlockAt(first + rest, j) == BlockAt(rest, j - 1);
  }

  lemma FirstBlockFollows(i: seq<byte>, b: seq<byte>, rest: seq<byte>)
    requires 64 <= |i|
    ensures BlockFollows(i, b, NextBlock(i[..64], b) + rest, 0)
  {
    hide FromBe, Pow256, ToBe;
    NextBlockAdds(i[..64], b);
    assert BlockAt(i, 0) == i[..64] && BlockAt(NextBlock(i[..64], b) + rest, 0) == NextBlock(i[..64], b);
  }

  lemma {:induction false} NextBlocksAdd(i: seq<byte>, b: seq<byte>, j: nat)
    requires 64 * (j + 1) <= |i|
    ensures BlockFollows(i, b, NextBlocks(i, b), j)
    decreases j
  {
    hide BlockFollows, NextBlock;
    var rest := NextBlocks(i[64..], b);
    assert NextBlocks(i, b) == NextBlock(i[..64], b) + rest;
    if j == 0 {
      FirstBlockFollows(i, b, rest);
    } else {
      NextBlocksAdd(i[64..], b, j - 1);
      NextBlockLength(i[..64], b);
      LaterBlockFollows(i, b, NextBlock(i[..64], b), rest, j);
    }
  }

  lemma NextBlockLength(block: seq<byte>, b: seq<byte>)
    ensures |NextBlock(block, b)| == 64
  {
  }

  lemma NextBlockAdds(block: seq<byte>, b: seq<byte>)
    ensures FromBe(NextBlock(block, b)) == (FromBe(block) + FromBe(b) + 1) % Pow256(64)
  {
    hide FromBe, ToBe;
    FromBeOfToBe((FromBe(block) + FromBe(b) + 1) % Pow256(V), V);
  }

  lemma {:induction false} FromBeOfToBe(n: nat, w: nat)
    requires n < Pow256(w)
    ensures FromBe(ToBe(n, w)) == n
    decreases w
  {
    if w > 0 {
      FromBeOfToBe(n / 256, w - 1);
      assert ToBe(n, w)[..w - 1] == ToBe(n / 256, w - 1);
    }
  }

  /** The inputs and outputs of the rounds. */
  ghost predicate AreRounds(h: Hash, r: nat, d: seq<byte>, inputs: seq<seq<byte>>, outputs: seq<seq<byte>>) {
    && |inputs| == |outputs|
    && (forall c | 0 <= c < |inputs| :: outputs[c] == HashTimes(h, r, d + inputs[c]) && |outputs[c]| == 20)
    && (forall c | 0 <= c < |inputs| - 1 :: Follows(inputs[c], outputs[c], inputs[c + 1]))
  }

  /** Every block of the next input is that of this one, plus the output repeated to 64 octets, plus 1. */
  ghost predicate Follows(input: seq<byte>, output: seq<byte>, next: seq<byte>) {
    exists b: seq<byte> :: RepeatsTo64(b, output) && AllFollow(input, b, next)
  }

  predicate RepeatsTo64(b: seq<byte>, output: seq<byte>) {
    |b| == 64 && output != [] && forall k | 0 <= k < 64 :: b[k] == output[k % |output|]
  }

  ghost predicate AllFollow(input: seq<byte>, b: seq<byte>, next: seq<byte>) {
    forall j: nat | 64 * (j + 1) <= |input| :: BlockFollows(input, b, next, j)
  }

  lemma NextFollows(input: seq<byte>, output: seq<byte>)
    requires output != []
    ensures Follows(input, output, NextBlocks(input, Copies(output, V)))
  {
    CycleIsCopies(output, V);
    var b := Copies(output, V);
    assert RepeatsTo64(b, output);
    hide BlockFollows, NextBlocks, RepeatsTo64, Copies;
    forall j: nat | 64 * (j + 1) <= |input| ensures BlockFollows(input, b, NextBlocks(input, b), j) {
      NextBlocksAdd(input, b, j);
    }
    assert AllFollow(input, b, NextBlocks(input, b));
  }

  lemma OneRoundMore(h: Hash, r: nat, d: seq<byte>, input: seq<byte>, output: seq<byte>, inputs: seq<seq<byte>>, outputs: seq<seq<byte>>)
    requires AreRounds(h, r, d, inputs, outputs)
    requires output == HashTimes(h, r, d + input) && |output| == 20
    requires inputs != [] ==> Follows(input, output, inputs[0])
    ensures AreRounds(h, r, d, [input] + inputs, [output] + outputs)
  {
    hide HashTimes, Follows;
    var ins, outs := [input] + inputs, [output] + outputs;
    forall n | 0 <= n < |ins| - 1 ensures Follows(ins[n], outs[n], ins[n + 1]) {
      if n > 0 {
        assert Follows(inputs[n - 1], outputs[n - 1], inputs[n]);
      }
    }
  }

  lemma OctetOf(first: seq<byte>, rest: seq<byte>, output: seq<byte>, outputs: seq<seq<byte>>)
    requires first == output && |output| == 20 && |rest| == 20 * |outputs| && forall n | 0 <= n < |outputs| :: |outputs[n]| == 20
    requires forall k | 0 <= k < |rest| :: rest[k] == outputs[k / 20][k % 20]
    ensures forall k | 0 <= k < 20 + |rest| :: (first + rest)[k] == ([output] + outputs)[k / 20][k % 20]
  {
    forall k | 0 <= k < 20 + |rest| ensures (first + rest)[k] == ([output] + outputs)[k / 20][k % 20] {
      if k >= 20 {
        assert k / 20 == (k - 20) / 20 + 1 && k % 20 == (k - 20) % 20;
      }
    }
  }

  lemma {:induction false} RoundsAre(h: Hash, r: nat, d: seq<byte>, i: seq<byte>, c: nat)
    returns (inputs: seq<seq<byte>>, outputs: seq<seq<byte>>)
    requires r > 0
    ensures AreRounds(h, r, d, inputs, outputs) && |inputs| == c && (c > 0 ==> inputs[0] == i)
    ensures |Rounds(h, r, d, i, c)| == 20 * c
    ensures forall k | 0 <= k < 20 * c :: Rounds(h, r, d, i, c)[k] == outputs[k / 20][k % 20]
    decreases c
  {
    if c == 0 {
      inputs, outputs := [], [];
    } else {
      hide HashTimes, Follows, NextBlocks, Copies;
      var a := HashTimes(h, r, d + i);
      HashIsShort(h, r, d + i);
      NextFollows(i, a);
      var next := NextBlocks(i, Copies(a, V));
      var ins, outs := RoundsAre(h, r, d, next, c - 1);
      inputs, outputs := [i] + ins, [a] + outs;
      assert Rounds(h, r, d, i, c) == a + Rounds(h, r, d, next, c - 1);
      OneRoundMore(h, r, d, i, a, ins, outs);
      hide Rounds;
      OctetOf(a, Rounds(h, r, d, next, c - 1), a, outs);
    }
  }

  lemma HashIsShort(h: Hash, r: nat, x: seq<byte>)
    requires r > 0
    ensures |HashTimes(h, r, x)| == 20
  {
  }

  /** The key, in the words of the standard: octet k is octet k mod 20 of output k / 20; an output is the hash applied r
      times to 64 octets `id` and the input; the first input is salt and password, each repeated to whole blocks; every
      block of the next input is that of this one, plus the output repeated to a block, plus 1, modulo 2^512. */
  lemma KeyOctets(h: Hash, pass: seq<byte>, salt: seq<byte>, r: nat, id: byte, size: nat)
    returns (inputs: seq<seq<byte>>, outputs: seq<seq<byte>>, d: seq<byte>, s: seq<byte>, p: seq<byte>)
    requires r > 0
    ensures |d| == 64 && (forall k | 0 <= k < 64 :: d[k] == id) && FillsBlocks(s, salt) && FillsBlocks(p, pass)
    ensures AreRounds(h, r, d, inputs, outputs) && (size > 0 ==> inputs != [] && inputs[0] == s + p)
    ensures var key := DerivedKey(h, pass, salt, r, id, size);
            |key| == size <= 20 * |outputs| && forall k | 0 <= k < size :: key[k] == outputs[k / 20][k % 20]
  {
    hide AreRounds, Rounds, FillsBlocks, Copies, PaddedLen;
    d, s, p := Diversifier(id), Copies(salt, PaddedLen(|salt|)), Copies(pass, PaddedLen(|pass|));
    CopiesFillBlocks(salt);
    CopiesFillBlocks(pass);
    var c := (size + U - 1) / U;
    inputs, outputs := RoundsAre(h, r, d, SaltAndPassword(pass, salt), c);
    assert size <= 20 * c && (size > 0 ==> c > 0) && |outputs| == |inputs| by {
      SameCount(h, r, d, inputs, outputs);
    }
  }

  lemma SameCount(h: Hash, r: nat, d: seq<byte>, inputs: seq<seq<byte>>, outputs: seq<seq<byte>>)
    requires AreRounds(h, r, d, inputs, outputs)
    ensures |inputs| == |outputs|
  {
  }
}
