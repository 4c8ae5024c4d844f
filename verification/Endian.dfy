/** Multi-register values under the four vendor byte orders. */
module Endian {
  import opened Bytes

  datatype ByteOrder = ABCD | DCBA | BADC | CDAB

  function Reorder(order: ByteOrder, b: seq<Byte>): (r: seq<Byte>)
    requires |b| == 4 || |b| == 8
    ensures |r| == |b|
  {
    match order
    case ABCD => b
    case DCBA =>
      if |b| == 4 then [b[3], b[2], b[1], b[0]]
      else [b[7], b[6], b[5], b[4], b[3], b[2], b[1], b[0]]
    case BADC =>
      if |b| == 4 then [b[1], b[0], b[3], b[2]]
      else [b[1], b[0], b[3], b[2], b[5], b[4], b[7], b[6]]
    case CDAB =>
      if |b| == 4 then [b[2], b[3], b[0], b[1]]
      else [b[6], b[7], b[4], b[5], b[2], b[3], b[0], b[1]]
  }

  /** Decoding may apply the same reordering as encoding. */
  lemma ReorderInvolution(order: ByteOrder, b: seq<Byte>)
    requires |b| == 4 || |b| == 8
    ensures Reorder(order, Reorder(order, b)) == b
  {
  }

  /** ABCD leaves the bytes where they are, DCBA reads them backwards, BADC swaps the two bytes of every register, and CDAB
      does both, which leaves whole registers in reverse. */
  lemma OrdersAt(b: seq<Byte>, i: nat)
    requires (|b| == 4 || |b| == 8) && i < |b|
    ensures Reorder(ABCD, b)[i] == b[i]
    ensures Reorder(DCBA, b)[i] == b[|b| - 1 - i]
    ensures Reorder(BADC, b)[i] == b[if i % 2 == 0 then i + 1 else i - 1]
    ensures Reorder(CDAB, b)[i] == Reorder(BADC, b)[|b| - 1 - i]
  {
    assert i == 0 || i == 1 || i == 2 || i == 3 || i == 4 || i == 5 || i == 6 || i == 7;
  }

  // ---- the big-endian loops --------------------------------------------------

  lemma DivUnique(v: nat, d: nat, q: nat, r: nat)
    requires d > 0 && v == d * q + r && r < d
    ensures v / d == q
  {
    var k := v / d - q;
    assert d * k == d * (v / d) - d * q;
    assert d * k == r - v % d;
    MulAtLeast(d, k);
  }

  lemma DivDiv(v: nat, b: nat)
    requires b > 0
    ensures v / 0x100 / b == v / (0x100 * b)
  {
    var q1 := v / 0x100;
    var q2, r2 := q1 / b, q1 % b;
    assert 0x100 * (b * q2) == (0x100 * b) * q2;
    DivUnique(v, 0x100 * b, q2, 0x100 * r2 + v % 0x100);
  }

  /** Byte `i` of a big-endian number is what shifting the number brings to the front. */
  lemma {:induction false} BigEndianAt(n: nat, v: nat, i: nat)
    requires i < n
    ensures BigEndian(n, v)[i] == v / Pow256(n - 1 - i) % 0x100
  {
    if i == n - 1 {
      assert Pow256(0) == 1;
    } else {
      BigEndianAt(n - 1, v / 0x100, i);
      DivDiv(v, Pow256(n - 2 - i));
    }
  }

  /** `to_big_endian_bytes`: byte `i` is shifted down by `8 * (n - 1 - i)` bits. */
  method ToBigEndianBytes(n: nat, value: nat) returns (bytes: seq<Byte>)
    ensures bytes == BigEndian(n, value)
  {
    bytes := seq(n, _ => 0);
    for i := 0 to n
      invariant |bytes| == n && bytes[..i] == BigEndian(n, value)[..i]
    {
      BigEndianAt(n, value, i);
      bytes := bytes[i := value / Pow256(n - 1 - i) % 0x100];
    }
  }

  /** `from_big_endian_bytes`: each byte lands on bits that are still clear, so the bitwise
      or of the source is an addition. */
  method FromBigEndianBytes(data: seq<Byte>) returns (value: nat)
    ensures value == FromBigEndian(data)
  {
    value := 0;
    var n := |data|;
    for i := 0 to n
      invariant value == FromBigEndian(data[..i]) * Pow256(n - i)
    {
      assert data[..i + 1][..i] == data[..i];
      Distribute(FromBigEndian(data[..i]), data[i], Pow256(n - 1 - i));
      value := value + data[i] * Pow256(n - 1 - i);
    }
    assert data[..n] == data;
  }

  lemma Distribute(f: nat, d: nat, p: nat)
    ensures (f * 0x100 + d) * p == f * (0x100 * p) + d * p
  {
    assert (f * 0x100) * p == f * (0x100 * p);
  }

  // ---- registers -----------------------------------------------------------------

  /** A `2 * n`-byte pattern as `n` registers, for `n` 2 or 4. */
  function EncodeRegs(n: nat, order: ByteOrder, v: nat): (regs: seq<Word>)
    requires n == 2 || n == 4
    ensures |regs| == n
  {
    UnpackWords(Reorder(order, BigEndian(2 * n, v)))
  }

  function DecodeRegs(order: ByteOrder, regs: seq<Word>): nat
    requires |regs| == 2 || |regs| == 4
  {
    FromBigEndian(Reorder(order, PackWords(regs)))
  }

  lemma RegsRoundTrip(n: nat, order: ByteOrder, v: nat)
    requires (n == 2 || n == 4) && v < Pow256(2 * n)
    ensures DecodeRegs(order, EncodeRegs(n, order, v)) == v
  {
    var b := BigEndian(2 * n, v);
    PackUnpack(Reorder(order, b));
    ReorderInvolution(order, b);
    BigEndianRoundTrip(2 * n, v);
  }

  /** No two register contents decode to the same number: the orders are bijections. */
  lemma RegsInjective(order: ByteOrder, p: seq<Word>, q: seq<Word>)
    requires |p| == |q| && (|p| == 2 || |p| == 4)
    requires DecodeRegs(order, p) == DecodeRegs(order, q)
    ensures p == q
  {
    var a, b := PackWords(p), PackWords(q);
    FromBigEndianRoundTrip(Reorder(order, a));
    FromBigEndianRoundTrip(Reorder(order, b));
    ReorderInvolution(order, a);
    ReorderInvolution(order, b);
    UnpackPack(p);
    UnpackPack(q);
  }

  /** A register with its two bytes exchanged. */
  function Swapped(w: Word): Word { Join(w % 0x100, w / 0x100) }

  /** What two registers stand for, as numbers: ABCD and CDAB take them in order and in reverse,
      BADC and DCBA do the same with the bytes of each exchanged. */
  lemma DecodedPair(a: Word, b: Word)
    ensures DecodeRegs(ABCD, [a, b]) == a * 0x1_0000 + b
    ensures DecodeRegs(CDAB, [a, b]) == b * 0x1_0000 + a
    ensures DecodeRegs(BADC, [a, b]) == Swapped(a) * 0x1_0000 + Swapped(b)
    ensures DecodeRegs(DCBA, [a, b]) == Swapped(b) * 0x1_0000 + Swapped(a)
  {
    DecodedBytes(a / 0x100, a % 0x100, b / 0x100, b % 0x100);
    DigitsJoin(a);
    DigitsJoin(b);
  }

  lemma DigitsJoin(w: Word)
    ensures Join(w / 0x100, w % 0x100) == w
  {
  }

  lemma DecodedBytes(p: Byte, q: Byte, r: Byte, s: Byte)
    ensures DecodeRegs(ABCD, [Join(p, q), Join(r, s)]) == Join(p, q) * 0x1_0000 + Join(r, s)
    ensures DecodeRegs(CDAB, [Join(p, q), Join(r, s)]) == Join(r, s) * 0x1_0000 + Join(p, q)
    ensures DecodeRegs(BADC, [Join(p, q), Join(r, s)]) == Join(q, p) * 0x1_0000 + Join(s, r)
    ensures DecodeRegs(DCBA, [Join(p, q), Join(r, s)]) == Join(s, r) * 0x1_0000 + Join(q, p)
  {
    PackedPair(Join(p, q), Join(r, s));
    JoinInjective(p, q);
    JoinInjective(r, s);
    assert PackWords([Join(p, q), Join(r, s)]) == [p, q, r, s];
    FourDigits(p, q, r, s);
    FourDigits(r, s, p, q);
    FourDigits(q, p, s, r);
    FourDigits(s, r, q, p);
  }

  lemma PackedPair(a: Word, b: Word)
    ensures PackWords([a, b]) == WordBytes(a) + WordBytes(b)
  {
    assert [a, b][1..] == [b] && [b][1..] == [];
    assert PackWords([b]) == WordBytes(b) + [];
  }

  lemma FourDigits(p: Byte, q: Byte, r: Byte, s: Byte)
    ensures FromBigEndian([p, q, r, s]) == Join(p, q) * 0x1_0000 + Join(r, s)
  {
    assert [p, q, r, s][..3] == [p, q, r] && [p, q, r][..2] == [p, q] && [p, q][..1] == [p] && [p][..0] == [];
    assert FromBigEndian([p]) == p;
    assert FromBigEndian([p, q]) == p * 0x100 + q;
    assert FromBigEndian([p, q, r]) == (p * 0x100 + q) * 0x100 + r;
  }

  lemma {:induction false} FromBigEndianAppend(x: seq<Byte>, y: seq<Byte>)
    ensures FromBigEndian(x + y) == FromBigEndian(x) * Pow256(|y|) + FromBigEndian(y)
    decreases |y|
  {
    if y == [] {
      assert x + y == x;
    } else {
      var n := |y| - 1;
      assert (x + y)[..|x + y| - 1] == x + y[..n];
      FromBigEndianAppend(x, y[..n]);
      Shifted(FromBigEndian(x), FromBigEndian(y[..n]), Pow256(n), y[n]);
    }
  }

  lemma Shifted(f: nat, g: nat, p: nat, d: nat)
    ensures (f * p + g) * 0x100 + d == f * (0x100 * p) + (g * 0x100 + d)
  {
    assert f * (0x100 * p) == f * p * 0x100;
  }

  /** Four registers: the upper and the lower half like two pairs, in order for ABCD and BADC and
      in reverse for CDAB and DCBA. */
  lemma DecodedQuad(a: Word, b: Word, c: Word, d: Word)
    ensures DecodeRegs(ABCD, [a, b, c, d]) == DecodeRegs(ABCD, [a, b]) * 0x1_0000_0000 + DecodeRegs(ABCD, [c, d])
    ensures DecodeRegs(BADC, [a, b, c, d]) == DecodeRegs(BADC, [a, b]) * 0x1_0000_0000 + DecodeRegs(BADC, [c, d])
    ensures DecodeRegs(CDAB, [a, b, c, d]) == DecodeRegs(CDAB, [c, d]) * 0x1_0000_0000 + DecodeRegs(CDAB, [a, b])
    ensures DecodeRegs(DCBA, [a, b, c, d]) == DecodeRegs(DCBA, [c, d]) * 0x1_0000_0000 + DecodeRegs(DCBA, [a, b])
  {
    QuadOrder(ABCD, a, b, c, d);
    QuadOrder(BADC, a, b, c, d);
    QuadOrder(CDAB, a, b, c, d);
    QuadOrder(DCBA, a, b, c, d);
  }

  lemma PackedQuad(a: Word, b: Word, c: Word, d: Word)
    ensures PackWords([a, b, c, d]) == PackWords([a, b]) + PackWords([c, d])
  {
    PackedPair(a, b);
    PackedPair(c, d);
    assert [a, b, c, d][1..] == [b, c, d] && [b, c, d][1..] == [c, d];
    assert PackWords([b, c, d]) == WordBytes(b) + PackWords([c, d]);
    Concat(WordBytes(a), WordBytes(b), PackWords([c, d]));
  }

  lemma QuadOrder(order: ByteOrder, a: Word, b: Word, c: Word, d: Word)
    ensures DecodeRegs(order, [a, b, c, d]) ==
      if order.ABCD? || order.BADC? then DecodeRegs(order, [a, b]) * 0x1_0000_0000 + DecodeRegs(order, [c, d])
      else DecodeRegs(order, [c, d]) * 0x1_0000_0000 + DecodeRegs(order, [a, b])
  {
    var x, y := PackWords([a, b]), PackWords([c, d]);
    PackedQuad(a, b, c, d);
    Pow256Values();
    if order.ABCD? || order.BADC? {
      assert Reorder(order, x + y) == Reorder(order, x) + Reorder(order, y);
      FromBigEndianAppend(Reorder(order, x), Reorder(order, y));
    } else {
      assert Reorder(order, x + y) == Reorder(order, y) + Reorder(order, x);
      FromBigEndianAppend(Reorder(order, y), Reorder(order, x));
    }
  }

  /** Under every byte order every register contents is the encoding of the number it decodes to. */
  lemma RegsSurjective(order: ByteOrder, regs: seq<Word>)
    requires |regs| == 2 || |regs| == 4
    ensures EncodeRegs(|regs|, order, DecodeRegs(order, regs)) == regs
    ensures DecodeRegs(order, regs) < if |regs| == 2 then 0x1_0000_0000 else 0x1_0000_0000_0000_0000
  {
    var b := PackWords(regs);
    FromBigEndianRoundTrip(Reorder(order, b));
    ReorderInvolution(order, b);
    UnpackPack(regs);
    Pow256Values();
  }

  /** Encoding finds the one list of registers that decodes to the number. */
  lemma EncodedIs(order: ByteOrder, regs: seq<Word>, v: nat)
    requires (|regs| == 2 || |regs| == 4) && DecodeRegs(order, regs) == v
    ensures EncodeRegs(|regs|, order, v) == regs
  {
    RegsSurjective(order, regs);
  }

  lemma SwappedTwice(w: Word)
    ensures Swapped(Swapped(w)) == w
  {
    var hi: Byte, lo: Byte := w / 0x100, w % 0x100;
    assert Join(lo, hi) % 0x100 == hi && Join(lo, hi) / 0x100 == lo;
  }

  /** The registers of a 32-bit number with the halves `hi` and `lo`. */
  lemma EncodedPair(v: nat, hi: Word, lo: Word)
    requires v == hi * 0x1_0000 + lo
    ensures EncodeRegs(2, ABCD, v) == [hi, lo] && EncodeRegs(2, CDAB, v) == [lo, hi]
    ensures EncodeRegs(2, BADC, v) == [Swapped(hi), Swapped(lo)] && EncodeRegs(2, DCBA, v) == [Swapped(lo), Swapped(hi)]
  {
    DecodedPair(hi, lo);
    EncodedIs(ABCD, [hi, lo], v);
    DecodedPair(lo, hi);
    EncodedIs(CDAB, [lo, hi], v);
    EncodedSwapped(v, hi, lo, Swapped(hi), Swapped(lo));
  }

  lemma EncodedSwapped(v: nat, hi: Word, lo: Word, x: Word, y: Word)
    requires v == hi * 0x1_0000 + lo && x == Swapped(hi) && y == Swapped(lo)
    ensures EncodeRegs(2, BADC, v) == [x, y] && EncodeRegs(2, DCBA, v) == [y, x]
  {
    SwappedTwice(hi);
    SwappedTwice(lo);
    DecodedPair(x, y);
    EncodedIs(BADC, [x, y], v);
    DecodedPair(y, x);
    EncodedIs(DCBA, [y, x], v);
  }

  /** Under the default order the upper half of a 32-bit number comes first. */
  lemma EncodedHalves(v: nat)
    requires v < 0x1_0000_0000
    ensures EncodeRegs(2, ABCD, v) == [v / 0x1_0000, v % 0x1_0000]
  {
    EncodedPair(v, v / 0x1_0000, v % 0x1_0000);
  }

  /** The registers of a 64-bit number, quarter by quarter. */
  lemma EncodedQuad(v: nat, a: Word, b: Word, c: Word, d: Word)
    requires v == (a * 0x1_0000 + b) * 0x1_0000_0000 + (c * 0x1_0000 + d)
    ensures EncodeRegs(4, ABCD, v) == [a, b, c, d] && EncodeRegs(4, CDAB, v) == [d, c, b, a]
    ensures EncodeRegs(4, BADC, v) == [Swapped(a), Swapped(b), Swapped(c), Swapped(d)]
    ensures EncodeRegs(4, DCBA, v) == [Swapped(d), Swapped(c), Swapped(b), Swapped(a)]
  {
    DecodedQuad(a, b, c, d);
    DecodedPair(a, b);
    DecodedPair(c, d);
    EncodedIs(ABCD, [a, b, c, d], v);
    DecodedQuad(d, c, b, a);
    DecodedPair(d, c);
    DecodedPair(b, a);
    EncodedIs(CDAB, [d, c, b, a], v);
    QuadSwapped(v, a, b, c, d, Swapped(a), Swapped(b), Swapped(c), Swapped(d));
  }

  lemma QuadSwapped(v: nat, a: Word, b: Word, c: Word, d: Word, w: Word, x: Word, y: Word, z: Word)
    requires v == (a * 0x1_0000 + b) * 0x1_0000_0000 + (c * 0x1_0000 + d)
    requires w == Swapped(a) && x == Swapped(b) && y == Swapped(c) && z == Swapped(d)
    ensures EncodeRegs(4, BADC, v) == [w, x, y, z] && EncodeRegs(4, DCBA, v) == [z, y, x, w]
  {
    SwappedTwice(a);
    SwappedTwice(b);
    SwappedTwice(c);
    SwappedTwice(d);
    DecodedQuad(w, x, y, z);
    DecodedPair(w, x);
    DecodedPair(y, z);
    EncodedIs(BADC, [w, x, y, z], v);
    DecodedQuad(z, y, x, w);
    DecodedPair(z, y);
    DecodedPair(x, w);
    EncodedIs(DCBA, [z, y, x, w], v);
  }

  /** `encode_uint32_regs`, `encode_double_regs`: bytes, reordered, read pairwise. */
  method EncodeToRegisters(n: nat, order: ByteOrder, v: nat) returns (regs: seq<Word>)
    requires n == 2 || n == 4
    ensures regs == EncodeRegs(n, order, v)
    ensures n == 2 && order == ABCD && v < 0x1_0000_0000 ==> regs == [v / 0x1_0000, v % 0x1_0000]
  {
    var bytes := ToBigEndianBytes(2 * n, v);
    var ordered := Reorder(order, bytes);
    if n == 2 {
      regs := [Join(ordered[0], ordered[1]), Join(ordered[2], ordered[3])];
    } else {
      regs := [Join(ordered[0], ordered[1]), Join(ordered[2], ordered[3]),
               Join(ordered[4], ordered[5]), Join(ordered[6], ordered[7])];
    }
    UnpackPairs(ordered, regs);
    if n == 2 && order == ABCD && v < 0x1_0000_0000 {
      EncodedHalves(v);
    }
  }

  lemma {:induction false} UnpackPairs(bs: seq<Byte>, ws: seq<Word>)
    requires |bs| == 2 * |ws| && forall i | 0 <= i < |ws| :: ws[i] == Join(bs[2 * i], bs[2 * i + 1])
    ensures UnpackWords(bs) == ws
  {
    if ws != [] {
      forall i | 0 <= i < |ws| - 1
        ensures ws[1..][i] == Join(bs[2..][2 * i], bs[2..][2 * i + 1])
      {
        assert ws[i + 1] == Join(bs[2 * (i + 1)], bs[2 * (i + 1) + 1]);
      }
      UnpackPairs(bs[2..], ws[1..]);
    }
  }

  /** `decode_uint32_regs`, `decode_double_regs`: the loop splits each register in two bytes. */
  method DecodeFromRegisters(order: ByteOrder, regs: seq<Word>) returns (v: nat)
    requires |regs| == 2 || |regs| == 4
    ensures v == DecodeRegs(order, regs)
    ensures |regs| == 2 && order == ABCD ==> v == (regs[0] as nat) * 0x1_0000 + regs[1]
  {
    var bytes: seq<Byte> := [];
    for i := 0 to |regs|
      invariant bytes == PackWords(regs[..i])
    {
      PackPrefix(regs, i);
      bytes := PushWord(bytes, regs[i]);
    }
    assert regs[..|regs|] == regs;
    v := FromBigEndianBytes(Reorder(order, bytes));
    if |regs| == 2 {
      assert regs == [regs[0], regs[1]];
      DecodedPair(regs[0], regs[1]);
    }
  }
}
