/**
 The CRC of an RTU frame: a bitwise shift register with the reflected polynomial 0xA001
 (section 6.2.2 of the MODBUS over Serial Line Specification V1.02), and the errors it
 detects in frames of any length.
 */
module Crc16 {
  import opened Bytes

  const POLYNOMIAL: Word := 0xA001

  type Bit = b: nat | b < 2

  function XorBit(x: Bit, y: Bit): Bit { if x == y then 0 else 1 }

  /** Bitwise exclusive or of two unsigned integers. */
  function Xor(a: nat, b: nat): nat
    decreases a + b
  {
    if a == 0 && b == 0 then 0 else XorBit(a % 2, b % 2) + 2 * Xor(a / 2, b / 2)
  }

  // ---- algebra of Xor ------------------------------------------------------

  lemma {:induction false} XorZero(a: nat)
    ensures Xor(a, 0) == a && Xor(0, a) == a
  {
    if a != 0 {
      XorZero(a / 2);
    }
  }

  lemma XorHalf(a: nat, b: nat)
    ensures Xor(a, b) % 2 == XorBit(a % 2, b % 2)
    ensures Xor(a, b) / 2 == Xor(a / 2, b / 2)
  {
    DoublePlus(XorBit(a % 2, b % 2), Xor(a / 2, b / 2));
  }

  lemma DoublePlus(low: Bit, x: nat)
    ensures (low + 2 * x) % 2 == low && (low + 2 * x) / 2 == x
  {
  }

  lemma {:induction false} XorBound(a: nat, b: nat, n: nat)
    requires a < Pow2(n) && b < Pow2(n)
    ensures Xor(a, b) < Pow2(n)
  {
    if a != 0 || b != 0 {
      XorBound(a / 2, b / 2, n - 1);
    }
  }

  lemma {:induction false} XorTop(a: nat, b: nat, n: nat)
    requires a < Pow2(n) <= b < Pow2(n + 1)
    ensures Xor(a, b) >= Pow2(n)
  {
    if n == 0 {
      assert Xor(0, 1) == 1 + 2 * Xor(0, 0);
    } else {
      XorTop(a / 2, b / 2, n - 1);
    }
  }

  lemma {:induction false} XorAssoc(a: nat, b: nat, c: nat)
    ensures Xor(Xor(a, b), c) == Xor(a, Xor(b, c))
    decreases a + b + c
  {
    if a != 0 || b != 0 || c != 0 {
      XorAssoc(a / 2, b / 2, c / 2);
      XorHalf(a, b);
      XorHalf(b, c);
    }
  }

  lemma {:induction false} XorComm(a: nat, b: nat)
    ensures Xor(a, b) == Xor(b, a)
    decreases a + b
  {
    if a != 0 || b != 0 {
      XorComm(a / 2, b / 2);
    }
  }

  lemma {:induction false} XorSelf(a: nat)
    ensures Xor(a, a) == 0
  {
    if a != 0 {
      XorSelf(a / 2);
    }
  }

  lemma XorCancel(a: nat, b: nat, c: nat)
    requires Xor(a, b) == Xor(a, c)
    ensures b == c
  {
    XorAssoc(a, a, b);
    XorAssoc(a, a, c);
    XorSelf(a);
    XorZero(b);
    XorZero(c);
  }

  function Pow2(n: nat): (p: nat)
    ensures p > 0
  {
    if n == 0 then 1 else 2 * Pow2(n - 1)
  }

  lemma Pow2Values()
    ensures Pow2(1) == 2 && Pow2(8) == 0x100 && Pow2(15) == 0x8000 && Pow2(16) == 0x1_0000
  {
    assert Pow2(4) == 16;
    assert Pow2(8) == 0x100;
    assert Pow2(12) == 0x1000;
    assert Pow2(15) == 0x8000;
  }

  // ---- the register ----------------------------------------------------------

  /** One turn of the inner loop: shift right, and feed the polynomial back on a carry. */
  function Shift(crc: Word): (r: Word)
    ensures r >= 0x8000 <==> crc % 2 == 1
  {
    Pow2Values();
    if crc % 2 == 1 then
      XorBound(crc / 2, POLYNOMIAL, 16);
      XorTop(crc / 2, POLYNOMIAL, 15);
      Xor(crc / 2, POLYNOMIAL)
    else
      crc / 2
  }

  function XorWord(a: Word, b: Word): (r: Word)
    ensures r == Xor(a, b)
  {
    Pow2Values();
    XorBound(a, b, 16);
    Xor(a, b)
  }

  function ShiftN(n: nat, crc: Word): Word
  {
    if n == 0 then crc else ShiftN(n - 1, Shift(crc))
  }

  /** The register after `data`, starting from `crc`. */
  function CrcFrom(crc: Word, data: seq<Byte>): Word
    decreases data
  {
    if data == [] then crc else CrcFrom(ShiftN(8, XorWord(crc, data[0])), data[1..])
  }

  function Crc(data: seq<Byte>): Word { CrcFrom(0xFFFF, data) }

  lemma {:induction false} CrcFromAppend(crc: Word, a: seq<Byte>, b: seq<Byte>)
    ensures CrcFrom(crc, a + b) == CrcFrom(CrcFrom(crc, a), b)
    decreases a
  {
    if a == [] {
      assert a + b == b;
    } else {
      assert (a + b)[1..] == a[1..] + b;
      CrcFromAppend(ShiftN(8, XorWord(crc, a[0])), a[1..], b);
    }
  }

  lemma {:induction false} ShiftNLast(n: nat, crc: Word)
    ensures ShiftN(n + 1, crc) == Shift(ShiftN(n, crc))
  {
    if n > 0 {
      ShiftNLast(n - 1, Shift(crc));
    }
  }

  /** The two nested loops of `FrameCodec::crc16`. */
  method ComputeCrc16(data: seq<Byte>) returns (crc: Word)
    ensures crc == Crc(data)
  {
    crc := 0xFFFF;
    for i := 0 to |data|
      invariant crc == CrcFrom(0xFFFF, data[..i])
    {
      ghost var before := crc;
      crc := XorWord(crc, data[i]);
      ghost var mixed := crc;
      for bit := 0 to 8
        invariant crc == ShiftN(bit, mixed)
      {
        ShiftNLast(bit, mixed);
        crc := Shift(crc);
      }
      assert data[..i + 1] == data[..i] + [data[i]];
      CrcFromAppend(0xFFFF, data[..i], [data[i]]);
      assert CrcFrom(before, [data[i]]) == crc;
    }
    assert data[..|data|] == data;
  }

  // ---- the feedback, spelled out -----------------------------------------------

  lemma XorStep(bit: Bit, u: nat, v: nat)
    ensures Xor(bit + 2 * u, 2 * v) == bit + 2 * Xor(u, v)
  {
    DoublePlus(bit, u);
    XorHalf(bit + 2 * u, 2 * v);
  }

  /** Clear low bits let the other operand's pass. */
  lemma {:induction false} XorLow(n: nat, lo: nat, a: nat, b: nat)
    requires lo < Pow2(n)
    ensures Xor(lo + Shifted(n, a), Shifted(n, b)) == lo + Shifted(n, Xor(a, b))
  {
    if n > 0 {
      XorLow(n - 1, lo / 2, a, b);
      XorStep(lo % 2, lo / 2 + Shifted(n - 1, a), Shifted(n - 1, b));
    }
  }

  function Flip(bit: Bit): int { if bit == 0 then 1 else -1 }

  lemma ShiftedBy12(h: nat)
    ensures Shifted(12, h) == 0x1000 * h && Pow2(12) == 0x1000
  {
    ShiftedBy8(h);
    assert Shifted(10, h) == 4 * Shifted(8, h);
    assert Pow2(6) == 0x40;
    assert Pow2(9) == 0x200;
  }

  lemma XorFive(h: nat)
    requires h < 4
    ensures Xor(h, 5) == h + 4 + Flip(h % 2)
  {
    assert Xor(0, 1) == 1;
    assert Xor(0, 2) == 2 && Xor(1, 2) == 3;
  }

  lemma FeedbackFlips(lo: Bit, mid: nat, h: nat)
    requires mid < 0x1000 && h < 4
    ensures Xor(lo + 2 * (mid + 0x1000 * h), POLYNOMIAL)
         == lo + 2 * (mid + 0x1000 * h) + 0x8000 + 0x2000 * Flip(h % 2) + Flip(lo)
  {
    ShiftedBy12(h);
    ShiftedBy12(5);
    ShiftedBy12(Xor(h, 5));
    XorLow(12, mid, h, 5);
    XorFive(h);
    DoublePlus(lo, mid + 0x1000 * h);
    XorHalf(lo + 2 * (mid + 0x1000 * h), POLYNOMIAL);
  }

  /** The polynomial x^16 + x^15 + x^2 + 1, reflected: a carry comes back in at bits 15, 13
      and 0, which are bits 14 and 1 of the unshifted register and a clear bit. */
  function TapShift(crc: Word): int
  {
    crc / 2 + if crc % 2 == 1 then 0x8000 + 0x2000 * Flip(crc / 0x4000 % 2) + Flip(crc / 2 % 2) else 0
  }

  lemma ShiftIsTapShift(crc: Word)
    ensures Shift(crc) == TapShift(crc)
  {
    var x, y := crc / 2, crc / 4;
    assert x == x % 2 + 2 * y;
    assert y == y % 0x1000 + 0x1000 * (crc / 0x4000);
    FeedbackFlips(x % 2, y % 0x1000, crc / 0x4000);
  }

  // ---- the table-driven form -----------------------------------------------------

  /** What the table holds for one byte. */
  function TableEntry(i: Byte): Word { ShiftN(8, i) }

  /** The table-driven checksum: a byte at a time, one look-up each. */
  function TableCrcFrom(crc: Word, data: seq<Byte>): Word
    decreases data
  {
    if data == [] then crc
    else
      var x := XorWord(crc, data[0]);
      TableCrcFrom(XorWord(x / 0x100, TableEntry(x % 0x100)), data[1..])
  }

  /** Bits that have not reached the low end take no part in the feedback. */
  lemma {:induction false} ShiftNHigh(n: nat, crc: Word, h: nat)
    requires Shifted(n, h) < 0x1_0000
    ensures h < 0x1_0000 && ShiftN(n, XorWord(crc, Shifted(n, h))) == XorWord(ShiftN(n, crc), h)
  {
    if n > 0 {
      ShiftHigh(crc, Shifted(n - 1, h));
      ShiftNHigh(n - 1, Shift(crc), h);
    }
  }

  lemma ShiftedBy8(h: nat)
    ensures Shifted(8, h) == 0x100 * h
  {
    assert Shifted(1, h) == 2 * h;
    assert Shifted(2, h) == 4 * h;
    assert Shifted(4, h) == 0x10 * h;
    assert Shifted(6, h) == 0x40 * h;
  }

  lemma XorBytes(x: Word)
    ensures Xor(x % 0x100, 0x100 * (x / 0x100)) == x
  {
    Pow2Values();
    ShiftedBy8(x / 0x100);
    XorLow(8, x % 0x100, 0, x / 0x100);
    XorZero(x / 0x100);
    assert Shifted(8, 0) == 0;
  }

  /** One look-up does the work of eight shifts. */
  lemma TableStep(x: Word)
    ensures ShiftN(8, x) == XorWord(x / 0x100, TableEntry(x % 0x100))
  {
    XorBytes(x);
    ShiftedBy8(x / 0x100);
    ShiftNHigh(8, x % 0x100, x / 0x100);
    XorComm(x / 0x100, TableEntry(x % 0x100));
  }

  /** The bitwise loop and the table-driven form compute the same checksum. */
  lemma {:induction false} TableDriven(crc: Word, data: seq<Byte>)
    ensures CrcFrom(crc, data) == TableCrcFrom(crc, data)
    decreases data
  {
    if data != [] {
      TableStep(XorWord(crc, data[0]));
      TableDriven(ShiftN(8, XorWord(crc, data[0])), data[1..]);
    }
  }

  // ---- the register as a machine fed one bit at a time -------------------------

  /** The `n` low bits of `v`, least significant first: the order of a serial line. */
  function LowBits(n: nat, v: nat): (bits: seq<Bit>)
    ensures |bits| == n
  {
    if n == 0 then [] else [v % 2] + LowBits(n - 1, v / 2)
  }

  /** All bits of a frame, byte by byte, least significant bit first. */
  function Bits(data: seq<Byte>): (bits: seq<Bit>)
    ensures |bits| == 8 * |data|
  {
    if data == [] then [] else LowBits(8, data[0]) + Bits(data[1..])
  }

  function FeedBits(crc: Word, bits: seq<Bit>): Word
    decreases bits
  {
    if bits == [] then crc else FeedBits(Shift(XorWord(crc, bits[0])), bits[1..])
  }

  lemma {:induction false} FeedAppend(crc: Word, s: seq<Bit>, t: seq<Bit>)
    ensures FeedBits(crc, s + t) == FeedBits(FeedBits(crc, s), t)
    decreases s
  {
    if s == [] {
      assert s + t == t;
    } else {
      assert (s + t)[1..] == s[1..] + t;
      FeedAppend(Shift(XorWord(crc, s[0])), s[1..], t);
    }
  }

  /** The bits above the lowest pass through a shift unchanged. */
  lemma ShiftHigh(crc: Word, v: nat)
    requires v < 0x8000
    ensures Shift(XorWord(crc, 2 * v)) == Xor(Shift(crc), v)
  {
    XorHalf(crc, 2 * v);
    if crc % 2 == 1 {
      XorAssoc(crc / 2, v, POLYNOMIAL);
      XorAssoc(crc / 2, POLYNOMIAL, v);
      XorComm(v, POLYNOMIAL);
    }
  }

  /** Mixing in `n` bits at once and shifting `n` times is feeding them one at a time. */
  lemma {:induction false} ShiftNFeeds(n: nat, crc: Word, v: Word)
    requires v < Pow2(n)
    ensures ShiftN(n, XorWord(crc, v)) == FeedBits(crc, LowBits(n, v))
  {
    if n == 0 {
      XorZero(crc);
    } else {
      var fed := XorWord(crc, v % 2);
      assert XorWord(fed, 2 * (v / 2)) == XorWord(crc, v) by {
        XorAssoc(crc, v % 2, 2 * (v / 2));
        XorSplit(v);
      }
      ShiftHigh(fed, v / 2);
      ShiftNFeeds(n - 1, Shift(fed), v / 2);
      assert LowBits(n, v)[1..] == LowBits(n - 1, v / 2);
    }
  }

  lemma XorSplit(v: nat)
    ensures Xor(v % 2, 2 * (v / 2)) == v
  {
    XorHalf(v % 2, 2 * (v / 2));
    XorZero(v / 2);
  }

  lemma {:induction false} CrcFeeds(crc: Word, data: seq<Byte>)
    ensures CrcFrom(crc, data) == FeedBits(crc, Bits(data))
    decreases data
  {
    if data != [] {
      Pow2Values();
      ShiftNFeeds(8, crc, data[0]);
      FeedAppend(crc, LowBits(8, data[0]), Bits(data[1..]));
      CrcFeeds(ShiftN(8, XorWord(crc, data[0])), data[1..]);
    }
  }

  // ---- the register loses nothing ----------------------------------------------

  lemma ShiftInjective(a: Word, b: Word)
    requires Shift(a) == Shift(b)
    ensures a == b
  {
    if a % 2 == 1 {
      XorComm(a / 2, POLYNOMIAL);
      XorComm(b / 2, POLYNOMIAL);
      XorCancel(POLYNOMIAL, a / 2, b / 2);
    }
  }

  lemma {:induction false} ShiftNInjective(n: nat, a: Word, b: Word)
    requires ShiftN(n, a) == ShiftN(n, b)
    ensures a == b
  {
    if n > 0 {
      ShiftNInjective(n - 1, Shift(a), Shift(b));
      ShiftInjective(a, b);
    }
  }

  lemma {:induction false} ShiftNZero(n: nat)
    ensures ShiftN(n, 0) == 0
  {
    if n > 0 {
      assert Shift(0) == 0;
      ShiftNZero(n - 1);
    }
  }

  /** Two registers that differ still differ after the same bits. */
  lemma {:induction false} FeedKeepsDifference(a: Word, b: Word, bits: seq<Bit>)
    requires a != b
    ensures FeedBits(a, bits) != FeedBits(b, bits)
    decreases bits
  {
    if bits != [] {
      XorComm(a, bits[0]);
      XorComm(b, bits[0]);
      if XorWord(a, bits[0]) == XorWord(b, bits[0]) {
        XorCancel(bits[0], a, b);
      }
      if Shift(XorWord(a, bits[0])) == Shift(XorWord(b, bits[0])) {
        ShiftInjective(XorWord(a, bits[0]), XorWord(b, bits[0]));
      }
      FeedKeepsDifference(Shift(XorWord(a, bits[0])), Shift(XorWord(b, bits[0])), bits[1..]);
    }
  }

  function BitsValue(bits: seq<Bit>): (v: nat)
    ensures v < Pow2(|bits|)
  {
    if bits == [] then 0 else bits[0] + 2 * BitsValue(bits[1..])
  }

  lemma {:induction false} LowBitsOfValue(bits: seq<Bit>)
    ensures LowBits(|bits|, BitsValue(bits)) == bits
  {
    if bits != [] {
      LowBitsOfValue(bits[1..]);
    }
  }

  /** Sixteen differing bits leave one and the same register in different states. */
  lemma WindowSeparates(crc: Word, s: seq<Bit>, t: seq<Bit>)
    requires |s| == |t| == 16 && s != t
    ensures FeedBits(crc, s) != FeedBits(crc, t)
  {
    Pow2Values();
    var v, w := BitsValue(s), BitsValue(t);
    LowBitsOfValue(s);
    LowBitsOfValue(t);
    ShiftNFeeds(16, crc, v);
    ShiftNFeeds(16, crc, w);
    if FeedBits(crc, s) == FeedBits(crc, t) {
      ShiftNInjective(16, XorWord(crc, v), XorWord(crc, w));
      XorCancel(crc, v, w);
    }
  }

  // ---- acceptance is a zero residue ---------------------------------------------

  lemma BitsOfTwo(lo: Byte, hi: Byte)
    ensures Bits([lo, hi]) == LowBits(16, Join(hi, lo))
  {
    assert [lo, hi][1..] == [hi] && [hi][1..] == [];
    assert Bits([hi]) == LowBits(8, hi) + Bits([]);
    assert Bits([lo, hi]) == LowBits(8, lo) + LowBits(8, hi);
    Pow2Values();
    LowBitsJoin(8, 8, lo, hi);
    ShiftedBy8(hi);
  }

  lemma ShiftNClears(n: nat, crc: Word)
    ensures ShiftN(n, crc) == 0 <==> crc == 0
  {
    ShiftNZero(n);
    if ShiftN(n, crc) == 0 {
      ShiftNInjective(n, crc, 0);
    }
  }

  lemma XorClears(a: nat, b: nat)
    ensures Xor(a, b) == 0 <==> a == b
  {
    XorSelf(a);
    if Xor(a, b) == 0 {
      XorCancel(a, b, a);
    }
  }

  /** Feeding the two checksum bytes, low byte first, clears the register exactly when
      they are the checksum. */
  lemma ResidueZero(data: seq<Byte>, lo: Byte, hi: Byte)
    ensures CrcFrom(0xFFFF, data + [lo, hi]) == 0 <==> Crc(data) == Join(hi, lo)
  {
    var c, w := Crc(data), Join(hi, lo);
    CrcFromAppend(0xFFFF, data, [lo, hi]);
    CrcFeeds(c, [lo, hi]);
    BitsOfTwo(lo, hi);
    Pow2Values();
    ShiftNFeeds(16, c, w);
    ShiftNClears(16, XorWord(c, w));
    XorClears(c, w);
  }

  /** `v` shifted left by `n`. */
  function Shifted(n: nat, v: nat): nat
  {
    if n == 0 then v else 2 * Shifted(n - 1, v)
  }

  lemma {:induction false} LowBitsJoin(n: nat, m: nat, lo: nat, hi: nat)
    requires lo < Pow2(n)
    ensures LowBits(n + m, lo + Shifted(n, hi)) == LowBits(n, lo) + LowBits(m, hi)
  {
    if n == 0 {
      assert LowBits(0, lo) + LowBits(m, hi) == LowBits(m, hi);
    } else {
      LowBitsJoin(n - 1, m, lo / 2, hi);
      var rest := Shifted(n - 1, hi);
      assert (lo + 2 * rest) % 2 == lo % 2 && (lo + 2 * rest) / 2 == lo / 2 + rest;
      assert LowBits(n, lo) + LowBits(m, hi) == [lo % 2] + (LowBits(n - 1, lo / 2) + LowBits(m, hi));
    }
  }

  // ---- bursts ------------------------------------------------------------------------

  /** `g` differs from `f`, and only inside the sixteen bit positions from `k` on. */
  ghost predicate BurstError(f: seq<Byte>, g: seq<Byte>, k: nat)
  {
    && |f| == |g| && f != g
    && forall i | 0 <= i < |Bits(f)| && Bits(f)[i] != Bits(g)[i] :: k <= i < k + 16
  }

  lemma {:induction false} BitsInjective(f: seq<Byte>, g: seq<Byte>)
    requires |f| == |g| && Bits(f) == Bits(g)
    ensures f == g
  {
    if f != [] {
      assert Bits(f)[..8] == LowBits(8, f[0]) && Bits(g)[..8] == LowBits(8, g[0]);
      assert Bits(f)[8..] == Bits(f[1..]) && Bits(g)[8..] == Bits(g[1..]);
      LowBitsInjective(8, f[0], g[0]);
      BitsInjective(f[1..], g[1..]);
    }
  }

  lemma {:induction false} LowBitsInjective(n: nat, a: nat, b: nat)
    requires a < Pow2(n) && b < Pow2(n) && LowBits(n, a) == LowBits(n, b)
    ensures a == b
  {
    if n > 0 {
      assert LowBits(n, a)[1..] == LowBits(n - 1, a / 2);
      assert LowBits(n, b)[1..] == LowBits(n - 1, b / 2);
      assert LowBits(n, a)[0] == LowBits(n, b)[0];
      LowBitsInjective(n - 1, a / 2, b / 2);
    }
  }

  /** A burst changes the register, wherever it lies and however long the frame is. */
  lemma BurstChangesRegister(f: seq<Byte>, g: seq<Byte>, k: nat)
    requires |f| >= 2 && BurstError(f, g, k)
    ensures CrcFrom(0xFFFF, f) != CrcFrom(0xFFFF, g)
  {
    var s, t := Bits(f), Bits(g);
    // Slide a window that sticks out of the frame back to its last sixteen bits.
    var j := if k + 16 <= |s| then k else |s| - 16;
    assert s[..j] == t[..j];
    assert s[j + 16..] == t[j + 16..];
    assert s == s[..j] + (s[j..j + 16] + s[j + 16..]);
    assert t == t[..j] + (t[j..j + 16] + t[j + 16..]);
    if s[j..j + 16] == t[j..j + 16] {
      BitsInjective(f, g);
    }
    var c := FeedBits(0xFFFF, s[..j]);
    WindowSeparates(c, s[j..j + 16], t[j..j + 16]);
    FeedKeepsDifference(FeedBits(c, s[j..j + 16]), FeedBits(c, t[j..j + 16]), s[j + 16..]);
    FeedAppend(0xFFFF, s[..j], s[j..j + 16] + s[j + 16..]);
    FeedAppend(0xFFFF, t[..j], t[j..j + 16] + t[j + 16..]);
    FeedAppend(c, s[j..j + 16], s[j + 16..]);
    FeedAppend(c, t[j..j + 16], t[j + 16..]);
    CrcFeeds(0xFFFF, f);
    CrcFeeds(0xFFFF, g);
  }

  // ---- parity ------------------------------------------------------------------------

  function Ones(bits: seq<Bit>): nat
  {
    if bits == [] then 0 else bits[0] + Ones(bits[1..])
  }

  /** The parity of the one bits of an integer. */
  function Parity(v: nat): Bit
  {
    if v == 0 then 0 else XorBit(v % 2, Parity(v / 2))
  }

  lemma {:induction false} ParityXor(a: nat, b: nat)
    ensures Parity(Xor(a, b)) == XorBit(Parity(a), Parity(b))
    decreases a + b
  {
    if a != 0 || b != 0 {
      XorHalf(a, b);
      ParityXor(a / 2, b / 2);
    }
  }

  lemma PolynomialParity()
    ensures Parity(POLYNOMIAL) == 1
  {
    assert Parity(0x5) == 0;
    assert Parity(0xA) == 0;
    assert Parity(0x50) == 0 by { assert Parity(0x14) == 0; }
    assert Parity(0x500) == 0 by { assert Parity(0x140) == 0; }
    assert Parity(0x5000) == 0 by { assert Parity(0x1400) == 0; }
    assert POLYNOMIAL / 2 == 0x5000;
  }

  /** The polynomial has an odd number of one bits, so a shift keeps the parity. */
  lemma ShiftParity(crc: Word)
    ensures Parity(Shift(crc)) == Parity(crc)
  {
    if crc % 2 == 1 {
      PolynomialParity();
      ParityXor(crc / 2, POLYNOMIAL);
    }
  }

  lemma StepParity(crc: Word, bit: Bit)
    ensures Parity(Shift(XorWord(crc, bit))) == XorBit(Parity(crc), bit)
  {
    ParityXor(crc, bit);
    assert Parity(bit) == bit;
    ShiftParity(XorWord(crc, bit));
  }

  function ParityOf(bits: seq<Bit>): Bit
  {
    if bits == [] then 0 else XorBit(bits[0], ParityOf(bits[1..]))
  }

  lemma {:induction false} OnesParity(bits: seq<Bit>)
    ensures Ones(bits) % 2 == ParityOf(bits)
  {
    if bits != [] {
      OnesParity(bits[1..]);
      SumParity(bits[0], Ones(bits[1..]));
    }
  }

  lemma {:induction false} FeedParity(crc: Word, bits: seq<Bit>)
    ensures Parity(FeedBits(crc, bits)) == XorBit(Parity(crc), ParityOf(bits))
    decreases bits
  {
    if bits != [] {
      StepParity(crc, bits[0]);
      FeedParity(Shift(XorWord(crc, bits[0])), bits[1..]);
    }
  }

  lemma InitialParity()
    ensures Parity(0xFFFF) == 0
  {
    assert Parity(0xF) == 0;
    assert Parity(0xFF) == 0;
    assert Parity(0xFFF) == 0;
  }

  /** A frame that clears the register has an even number of one bits. */
  lemma ResidueZeroIsEven(frame: seq<Byte>)
    requires CrcFrom(0xFFFF, frame) == 0
    ensures Ones(Bits(frame)) % 2 == 0
  {
    CrcFeeds(0xFFFF, frame);
    FeedParity(0xFFFF, Bits(frame));
    OnesParity(Bits(frame));
    InitialParity();
  }

  /** How many positions differ. */
  function Distance(s: seq<Bit>, t: seq<Bit>): nat
    requires |s| == |t|
  {
    if s == [] then 0 else (if s[0] == t[0] then 0 else 1) + Distance(s[1..], t[1..])
  }

  lemma {:induction false} DistanceParity(s: seq<Bit>, t: seq<Bit>)
    requires |s| == |t|
    ensures Distance(s, t) % 2 == (Ones(s) + Ones(t)) % 2
  {
    if s != [] {
      DistanceParity(s[1..], t[1..]);
    }
  }

  lemma OddDistance(s: seq<Bit>, t: seq<Bit>)
    requires |s| == |t| && Distance(s, t) % 2 == 1
    ensures Ones(s) % 2 != Ones(t) % 2
  {
    DistanceParity(s, t);
    SumParity(Ones(s), Ones(t));
  }

  lemma SumParity(a: nat, b: nat)
    ensures (a + b) % 2 == XorBit(a % 2, b % 2)
  {
    var carry := if a % 2 == 1 && b % 2 == 1 then 1 else 0;
    DoublePlus(XorBit(a % 2, b % 2), a / 2 + b / 2 + carry);
  }
}
