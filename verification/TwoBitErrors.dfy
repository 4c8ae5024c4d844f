/**
 Two flipped bits. The difference they leave in the register runs through 32767 states before
 it comes back to where it began, so two bits closer than that cannot cancel each other. The
 period is found without running through it: one output bit of the register obeys a linear
 recurrence whose powers of two are quickly known.
 */
module TwoBitErrors {
  import opened Bytes
  import opened PduCodec
  import opened Crc16
  import opened FrameCodec

  // ---- single bits of a register -------------------------------------------------

  predicate BitAt(k: nat, v: nat)
  {
    if k == 0 then v % 2 == 1 else BitAt(k - 1, v / 2)
  }

  lemma {:induction false} BitXor(k: nat, a: nat, b: nat)
    ensures BitAt(k, Xor(a, b)) == (BitAt(k, a) != BitAt(k, b))
  {
    XorHalf(a, b);
    if k > 0 {
      BitXor(k - 1, a / 2, b / 2);
    }
  }

  lemma {:induction false} BitBeyond(k: nat, v: nat)
    requires v < Pow2(k)
    ensures !BitAt(k, v)
  {
    if k > 0 {
      BitBeyond(k - 1, v / 2);
    }
  }

  lemma {:induction false} BitShifted(k: nat, n: nat, v: nat)
    ensures BitAt(k, Shifted(n, v)) == (k >= n && BitAt(k - n, v))
  {
    if n > 0 && k > 0 {
      BitShifted(k - 1, n - 1, v);
    }
  }

  lemma BitOfFive(k: nat)
    ensures BitAt(k, 5) == (k == 0 || k == 2)
  {
    if k >= 3 {
      assert Pow2(3) == 8;
      BitOfSmall(k, 5);
    } else {
      assert BitAt(0, 5) && !BitAt(0, 2) && BitAt(0, 1);
      assert BitAt(1, 5) == BitAt(0, 2) && BitAt(1, 2) == BitAt(0, 1) && BitAt(2, 5) == BitAt(1, 2);
    }
  }

  lemma {:induction false} BitOfSmall(k: nat, v: nat)
    requires k >= 3 && v < 8
    ensures !BitAt(k, v)
  {
    assert v / 2 / 2 / 2 == 0;
    assert BitAt(k, v) == BitAt(k - 1, v / 2) == BitAt(k - 2, v / 2 / 2) == BitAt(k - 3, 0);
    assert Pow2(k - 3) > 0;
    BitBeyond(k - 3, 0);
  }

  lemma PolynomialBits(k: nat)
    ensures BitAt(k, POLYNOMIAL) == (k == 0 || k == 13 || k == 15)
  {
    ShiftedBy12(5);
    if k > 0 {
      BitShifted(k - 1, 12, 5);
      if k >= 13 {
        BitOfFive(k - 13);
      }
    }
  }

  lemma ShiftBit(k: nat, crc: Word)
    ensures BitAt(k, Shift(crc)) == (BitAt(k + 1, crc) != (crc % 2 == 1 && (k == 0 || k == 13 || k == 15)))
  {
    if crc % 2 == 1 {
      BitXor(k, crc / 2, POLYNOMIAL);
      PolynomialBits(k);
    }
  }

  // ---- the output of the register started with a single bit ------------------------

  lemma {:induction false} ShiftNAdd(a: nat, b: nat, crc: Word)
    ensures ShiftN(a + b, crc) == ShiftN(a, ShiftN(b, crc))
  {
    if b > 0 {
      ShiftNAdd(a, b - 1, Shift(crc));
    }
  }

  /** The bit that is shifted out at step `n`, starting from `c`. */
  predicate Out(c: Word, n: nat) { ShiftN(n, c) % 2 == 1 }

  lemma StateBit(k: nat, c: Word, n: nat)
    ensures BitAt(k, ShiftN(n + 1, c))
         == (BitAt(k + 1, ShiftN(n, c)) != (Out(c, n) && (k == 0 || k == 13 || k == 15)))
  {
    ShiftNLast(n, c);
    ShiftBit(k, ShiftN(n, c));
  }

  lemma TravelsToTap(c: Word, n: nat)
    ensures BitAt(13, ShiftN(n + 3, c)) == (Out(c, n + 2) != Out(c, n))
  {
    Pow2Values();
    BitBeyond(16, ShiftN(n, c));
    StateBit(15, c, n);
    StateBit(14, c, n + 1);
    StateBit(13, c, n + 2);
  }

  /** What is shifted out at step `n` comes back in at the top and travels down, and on the way
      meets what is shifted out two steps later. */
  lemma {:induction false} Travels(c: Word, n: nat, j: nat)
    requires j <= 12
    ensures BitAt(13 - j, ShiftN(n + 3 + j, c)) == (Out(c, n + 2) != Out(c, n))
  {
    if j == 0 {
      TravelsToTap(c, n);
    } else {
      Travels(c, n, j - 1);
      StateBit(13 - j, c, n + 2 + j);
    }
  }

  lemma OutRecurrence(c: Word, n: nat)
    ensures Out(c, n + 16) == (Out(c, n + 15) != (Out(c, n + 2) != Out(c, n)))
  {
    Travels(c, n, 12);
    StateBit(0, c, n + 15);
  }

  /** Two outputs in a row compared. */
  predicate Turn(c: Word, n: nat) { Out(c, n + 1) != Out(c, n) }

  lemma NextState(c: Word, n: nat, x: Word, y: int)
    requires ShiftN(n, c) == x && TapShift(x) == y
    ensures ShiftN(n + 1, c) == y
  {
    ShiftNLast(n, c);
    ShiftIsTapShift(x);
  }

  /** Five states from `n` on, of which none has its lowest bit clear. */
  lemma FiveStates(c: Word, n: nat, x0: Word, x1: Word, x2: Word, x3: Word, x4: Word, x5: Word)
    requires ShiftN(n, c) == x0
    requires TapShift(x0) == x1 && TapShift(x1) == x2 && TapShift(x2) == x3 && TapShift(x3) == x4 && TapShift(x4) == x5
    ensures ShiftN(n + 5, c) == x5
    ensures Out(c, n) == (x0 % 2 == 1) && Out(c, n + 1) == (x1 % 2 == 1) && Out(c, n + 2) == (x2 % 2 == 1)
    ensures Out(c, n + 3) == (x3 % 2 == 1) && Out(c, n + 4) == (x4 % 2 == 1)
  {
    NextState(c, n, x0, x1);
    NextState(c, n + 1, x1, x2);
    NextState(c, n + 2, x2, x3);
    NextState(c, n + 3, x3, x4);
    NextState(c, n + 4, x4, x5);
  }

  lemma SixteenStates(c: Word, n: nat)
    requires ShiftN(n, c) == 1
    ensures Out(c, n) && Out(c, n + 1) && Out(c, n + 2) && Out(c, n + 3) && Out(c, n + 4) && Out(c, n + 5)
    ensures Out(c, n + 6) && Out(c, n + 7) && Out(c, n + 8) && Out(c, n + 9) && Out(c, n + 10) && Out(c, n + 11)
    ensures Out(c, n + 12) && Out(c, n + 13) && !Out(c, n + 14) && Out(c, n + 15)
  {
    FiveStates(c, n, 0x1, 0xA001, 0xF001, 0xD801, 0xCC01, 0xC601);
    FiveStates(c, n + 5, 0xC601, 0xC301, 0xC181, 0xC0C1, 0xC061, 0xC031);
    FiveStates(c, n + 10, 0xC031, 0xC019, 0xC00D, 0xC007, 0xC002, 0x6001);
  }

  // ---- sequences with the recurrence of x^15 + x + 1 --------------------------------

  predicate Obeys(f: nat -> bool, n: nat) { f(n + 15) == (f(n + 1) != f(n)) }

  predicate FirstAre(f: nat -> bool, n: nat) { f(n) <==> n >= 13 }

  /** The recurrence, and fifteen values to start with: no, thirteen times, and twice yes. */
  ghost predicate Sequence(f: nat -> bool)
  {
    (forall n: nat :: Obeys(f, n)) && forall n: nat | n < 15 :: FirstAre(f, n)
  }

  lemma FirstTurns(c: Word, z: nat, f: nat -> bool)
    requires ShiftN(z, c) == 1 && forall n: nat :: f(n) == Turn(c, z + n)
    ensures forall n: nat | n < 15 :: FirstAre(f, n)
  {
    SixteenStates(c, z);
    forall n: nat | n < 15
      ensures FirstAre(f, n)
    {
      assert f(n) == Turn(c, z + n);
      assert n == 0 || n == 1 || n == 2 || n == 3 || n == 4 || n == 5 || n == 6 || n == 7
          || n == 8 || n == 9 || n == 10 || n == 11 || n == 12 || n == 13 || n == 14;
    }
  }

  lemma TurnsAreSequence(c: Word, z: nat, f: nat -> bool)
    requires ShiftN(z, c) == 1 && forall n: nat :: f(n) == Turn(c, z + n)
    ensures Sequence(f)
  {
    FirstTurns(c, z, f);
    forall n: nat
      ensures Obeys(f, n)
    {
      OutRecurrence(c, z + n);
    }
  }

  /** Further values, from the recurrence. */
  lemma {:induction false} Values(f: nat -> bool, n: nat)
    requires Sequence(f) && n < 42
    ensures f(n) <==> n == 13 || n == 14 || n == 27 || n == 29 || n == 41
  {
    if n < 15 {
      assert FirstAre(f, n);
    } else {
      assert Obeys(f, n - 15);
      Values(f, n - 15);
      Values(f, n - 14);
    }
  }

  // ---- powers of two ------------------------------------------------------------------

  predicate DoublesAt(f: nat -> bool, m: nat, n: nat)
  {
    f(n + 16 * m) == (f(n + 2 * m) != f(n + m))
  }

  ghost predicate Doubling(f: nat -> bool, m: nat) { forall n: nat :: DoublesAt(f, m, n) }

  lemma DoublingOne(f: nat -> bool)
    requires Sequence(f)
    ensures Doubling(f, 1)
  {
    forall n: nat
      ensures DoublesAt(f, 1, n)
    {
      assert Obeys(f, n + 1);
    }
  }

  lemma DoublingTwice(f: nat -> bool, m: nat)
    requires Doubling(f, m)
    ensures Doubling(f, 2 * m)
  {
    forall n: nat
      ensures DoublesAt(f, 2 * m, n)
    {
      assert DoublesAt(f, m, n + 16 * m) && DoublesAt(f, m, n + 2 * m) && DoublesAt(f, m, n + m);
    }
  }

  lemma {:induction false} DoublingPowers(f: nat -> bool, k: nat)
    requires Sequence(f)
    ensures Doubling(f, Pow2(k))
  {
    if k == 0 {
      DoublingOne(f);
    } else {
      DoublingPowers(f, k - 1);
      DoublingTwice(f, Pow2(k - 1));
    }
  }

  /** A combination of 8, 4, 2 and 1 steps on. */
  datatype Mix = Mix(c8: bool, c4: bool, c2: bool, c1: bool)

  function Sum(a: Mix, b: Mix): Mix { Mix(a.c8 != b.c8, a.c4 != b.c4, a.c2 != b.c2, a.c1 != b.c1) }

  predicate Mixed(f: nat -> bool, x: Mix, n: nat)
  {
    (x.c8 && f(n + 8)) != ((x.c4 && f(n + 4)) != ((x.c2 && f(n + 2)) != (x.c1 && f(n + 1))))
  }

  predicate AheadAt(f: nat -> bool, m: nat, x: Mix, n: nat) { f(n + m) == Mixed(f, x, n) }

  /** `m` steps on is the combination `x`. */
  ghost predicate Ahead(f: nat -> bool, m: nat, x: Mix) { forall n: nat :: AheadAt(f, m, x, n) }

  lemma AheadStep(f: nat -> bool, k: nat, m: nat, x: Mix, y: Mix)
    requires Sequence(f) && m == Pow2(k) && Ahead(f, 2 * m, x) && Ahead(f, m, y)
    ensures Ahead(f, 16 * m, Sum(x, y))
  {
    DoublingPowers(f, k);
    forall n: nat
      ensures AheadAt(f, 16 * m, Sum(x, y), n)
    {
      assert DoublesAt(f, m, n) && AheadAt(f, 2 * m, x, n) && AheadAt(f, m, y, n);
    }
  }

  lemma SmallPowers()
    ensures Pow2(0) == 1 && Pow2(1) == 2 && Pow2(2) == 4 && Pow2(3) == 8 && Pow2(4) == 0x10 && Pow2(5) == 0x20
    ensures Pow2(6) == 0x40 && Pow2(7) == 0x80 && Pow2(8) == 0x100 && Pow2(9) == 0x200 && Pow2(10) == 0x400
    ensures Pow2(11) == 0x800
  {
    assert Pow2(3) == 8;
    assert Pow2(6) == 0x40;
    assert Pow2(9) == 0x200;
  }

  lemma AheadSmall(f: nat -> bool)
    ensures Ahead(f, 1, Mix(false, false, false, true)) && Ahead(f, 2, Mix(false, false, true, false))
    ensures Ahead(f, 4, Mix(false, true, false, false)) && Ahead(f, 8, Mix(true, false, false, false))
  {
  }

  lemma AheadPowers(f: nat -> bool)
    requires Sequence(f)
    ensures Ahead(f, 0x20, Mix(false, true, true, false))
    ensures Ahead(f, 0x40, Mix(true, true, false, false))
    ensures Ahead(f, 0x80, Mix(true, false, true, true))
    ensures Ahead(f, 0x200, Mix(true, false, true, false))
    ensures Ahead(f, 0x400, Mix(false, true, true, true))
    ensures Ahead(f, 0x1000, Mix(true, true, true, true))
    ensures Ahead(f, 0x8000, Mix(false, false, false, true))
  {
    SmallPowers();
    AheadSmall(f);
    var a0, a1 := Mix(false, false, false, true), Mix(false, false, true, false);
    var a2, a3 := Mix(false, true, false, false), Mix(true, false, false, false);
    AheadStep(f, 0, 1, a1, a0);
    AheadStep(f, 1, 2, a2, a1);
    AheadStep(f, 2, 4, a3, a2);
    var a4, a5, a6 := Sum(a1, a0), Sum(a2, a1), Sum(a3, a2);
    AheadStep(f, 3, 8, a4, a3);
    AheadStep(f, 4, 0x10, a5, a4);
    AheadStep(f, 5, 0x20, a6, a5);
    var a7, a8, a9 := Sum(a4, a3), Sum(a5, a4), Sum(a6, a5);
    AheadStep(f, 6, 0x40, a7, a6);
    AheadStep(f, 7, 0x80, a8, a7);
    AheadStep(f, 8, 0x100, a9, a8);
    var a10, a11 := Sum(a7, a6), Sum(a8, a7);
    AheadStep(f, 9, 0x200, a10, a9);
    AheadStep(f, 10, 0x400, a11, a10);
    AheadStep(f, 11, 0x800, Sum(a9, a8), a11);
  }

  // ---- periods ----------------------------------------------------------------------------

  predicate Repeats(f: nat -> bool, d: nat, n: nat) { f(n + d) == f(n) }

  ghost predicate Period(f: nat -> bool, d: nat) { forall n: nat :: Repeats(f, d, n) }

  lemma PeriodDifference(f: nat -> bool, a: nat, b: nat, d: nat)
    requires Period(f, a) && Period(f, b) && a == b + d
    ensures Period(f, d)
  {
    forall n: nat
      ensures Repeats(f, d, n)
    {
      assert Repeats(f, b, n + d) && Repeats(f, a, n);
    }
  }

  lemma PeriodSum(f: nat -> bool, a: nat, b: nat, s: nat)
    requires Period(f, a) && Period(f, b) && s == a + b
    ensures Period(f, s)
  {
    forall n: nat
      ensures Repeats(f, s, n)
    {
      assert Repeats(f, b, n + a) && Repeats(f, a, n);
    }
  }

  lemma {:induction false} PeriodTimes(f: nat -> bool, k: nat, d: nat)
    requires Period(f, d)
    ensures Period(f, k * d)
  {
    if k == 0 {
      assert k * d == 0;
    } else {
      assert k * d == (k - 1) * d + d;
      PeriodTimes(f, k - 1, d);
      PeriodSum(f, (k - 1) * d, d, k * d);
    }
  }

  lemma FullPeriod(f: nat -> bool)
    requires Sequence(f)
    ensures Period(f, 32767)
  {
    AheadPowers(f);
    var one := Mix(false, false, false, true);
    forall n: nat
      ensures Repeats(f, 32767, n)
    {
      assert Obeys(f, n) && Obeys(f, n + 32767);
      assert AheadAt(f, 0x8000, one, n) && AheadAt(f, 0x8000, one, n + 14);
    }
  }

  lemma NoPeriod1057(f: nat -> bool)
    requires Sequence(f)
    ensures !Period(f, 1057)
  {
    AheadPowers(f);
    var a5 := Mix(false, true, true, false);
    assert AheadAt(f, 0x400, Mix(false, true, true, true), 37);
    assert AheadAt(f, 0x20, a5, 9) && AheadAt(f, 0x20, a5, 7) && AheadAt(f, 0x20, a5, 6);
    Values(f, 4);
    Values(f, 8);
    Values(f, 10);
    Values(f, 13);
    Values(f, 9);
    assert !Repeats(f, 1057, 4);
  }

  lemma NoPeriod4681(f: nat -> bool)
    requires Sequence(f)
    ensures !Period(f, 4681)
  {
    AheadPowers(f);
    var a6, a9 := Mix(true, true, false, false), Mix(true, false, true, false);
    assert AheadAt(f, 0x1000, Mix(true, true, true, true), 586);
    assert AheadAt(f, 0x200, a9, 82) && AheadAt(f, 0x200, a9, 78) && AheadAt(f, 0x200, a9, 76) && AheadAt(f, 0x200, a9, 75);
    assert AheadAt(f, 0x40, a6, 26) && AheadAt(f, 0x40, a6, 22) && AheadAt(f, 0x40, a6, 16);
    assert AheadAt(f, 0x40, a6, 14) && AheadAt(f, 0x40, a6, 19) && AheadAt(f, 0x40, a6, 13);
    Values(f, 1);
    Values(f, 17);
    Values(f, 18);
    Values(f, 20);
    Values(f, 21);
    Values(f, 22);
    Values(f, 23);
    Values(f, 24);
    Values(f, 26);
    Values(f, 27);
    Values(f, 34);
    assert !Repeats(f, 4681, 1);
  }

  lemma NoPeriod217(f: nat -> bool)
    requires Sequence(f)
    ensures !Period(f, 217)
  {
    AheadPowers(f);
    var a6 := Mix(true, true, false, false);
    assert AheadAt(f, 0x80, Mix(true, false, true, true), 89);
    assert AheadAt(f, 0x40, a6, 33) && AheadAt(f, 0x40, a6, 27) && AheadAt(f, 0x40, a6, 26);
    Values(f, 0);
    Values(f, 30);
    Values(f, 31);
    Values(f, 34);
    Values(f, 35);
    Values(f, 37);
    Values(f, 41);
    assert !Repeats(f, 217, 0);
  }

  // ---- the least period ---------------------------------------------------------------------

  predicate Prime(p: nat) { p > 1 && forall x | 1 < x < p :: p % x != 0 }

  predicate OneOfThree(p: nat) { p == 7 || p == 31 || p == 151 }

  lemma NoSmallFactor(p: nat, x: nat, y: nat)
    requires OneOfThree(p) && 1 < x < 13 && y > 1
    ensures p != x * y
  {
    assert x == 2 || x == 3 || x == 4 || x == 5 || x == 6 || x == 7 || x == 8 || x == 9 || x == 10 || x == 11 || x == 12;
  }

  lemma LargeFactors(x: nat, y: nat)
    requires x >= 13 && y >= 13
    ensures x * y >= 169
  {
    assert x * y == 13 * y + (x - 13) * y;
  }

  lemma NoFactor(p: nat, x: nat)
    requires OneOfThree(p) && 1 < x < p
    ensures p % x != 0
  {
    var y := p / x;
    if p % x == 0 {
      assert p == x * y && y > 1;
      if x < 13 {
        NoSmallFactor(p, x, y);
      } else if y < 13 {
        NoSmallFactor(p, y, x);
      } else {
        LargeFactors(x, y);
      }
    }
  }

  lemma IsPrime(p: nat)
    requires OneOfThree(p)
    ensures Prime(p)
  {
    forall x | 1 < x < p
      ensures p % x != 0
    {
      NoFactor(p, x);
    }
  }

  /** Euclid's algorithm, as far as a prime allows. */
  lemma {:induction false} Descend(f: nat -> bool, q: nat, p: nat, r: nat)
    requires Prime(p) && 1 <= r < p && Period(f, q * p) && Period(f, q * r)
    ensures Period(f, q)
    decreases r
  {
    if r == 1 {
      assert q * r == q;
    } else {
      var k, rest := p / r, p % r;
      ProductSplit(q, p, r, k, rest);
      PeriodTimes(f, k, q * r);
      PeriodDifference(f, q * p, k * (q * r), q * rest);
      Descend(f, q, p, rest);
    }
  }

  lemma ProductSplit(q: nat, d: nat, p: nat, k: nat, r: nat)
    requires d == p * k + r
    ensures q * d == k * (q * p) + q * r
  {
    assert q * d == q * (p * k) + q * r;
    assert q * (p * k) == k * (q * p);
  }

  lemma PrimeDivides(f: nat -> bool, q: nat, p: nat, d: nat)
    requires Prime(p) && Period(f, q * p) && !Period(f, q) && Period(f, d)
    ensures d % p == 0
  {
    var k, r := d / p, d % p;
    if r != 0 {
      ProductSplit(q, d, p, k, r);
      PeriodTimes(f, q, d);
      PeriodTimes(f, k, q * p);
      PeriodDifference(f, q * d, k * (q * p), q * r);
      Descend(f, q, p, r);
    }
  }

  lemma MultipleOfAll(d: nat)
    requires d > 0 && d % 7 == 0 && d % 31 == 0 && d % 151 == 0
    ensures d >= 32767
  {
    var a, b, c := d / 7, d / 31, d / 151;
    var m := 9 * b - 2 * a;
    assert a == 31 * m;
    assert d == 217 * m == 151 * c;
    assert d == 32767 * (23 * m - 16 * c);
  }

  lemma LeastPeriod(f: nat -> bool, d: nat)
    requires Sequence(f) && d > 0 && Period(f, d)
    ensures d >= 32767
  {
    FullPeriod(f);
    IsPrime(7);
    IsPrime(31);
    IsPrime(151);
    NoPeriod4681(f);
    NoPeriod1057(f);
    NoPeriod217(f);
    PrimeDivides(f, 4681, 7, d);
    PrimeDivides(f, 1057, 31, d);
    PrimeDivides(f, 217, 151, d);
    MultipleOfAll(d);
  }

  lemma ReturnRepeats(c: Word, d: nat, n: nat)
    requires ShiftN(d, c) == c
    ensures Turn(c, n + d) == Turn(c, n)
  {
    ShiftNAdd(n, d, c);
    ShiftNAdd(n + 1, d, c);
    assert n + 1 + d == n + d + 1;
  }

  lemma ReturnIsLate(c: Word, z: nat, d: nat, f: nat -> bool)
    requires ShiftN(z, c) == 1 && d > 0 && forall n: nat :: f(n) == Turn(c, z + n)
    requires ShiftN(d, c) == c
    ensures d >= 32767
  {
    forall n: nat
      ensures Repeats(f, d, n)
    {
      ReturnRepeats(c, d, z + n);
      assert f(n + d) == Turn(c, z + (n + d)) == Turn(c, z + n + d);
    }
    TurnsAreSequence(c, z, f);
    LeastPeriod(f, d);
  }

  /** A single bit in the register is back after 32767 shifts at the earliest. */
  lemma BitReturns(d: nat)
    requires 0 < d < 32767
    ensures ShiftN(d, 1) != 1
  {
    if ShiftN(d, 1) == 1 {
      ReturnIsLate(1, 0, d, (n: nat) => Turn(1, 0 + n));
    }
  }

  // ---- two errors in a frame ----------------------------------------------------------------

  /** The step is linear. */
  lemma ShiftXor(a: Word, b: Word)
    ensures Shift(XorWord(a, b)) == XorWord(Shift(a), Shift(b))
  {
    var x, y, p := a / 2, b / 2, POLYNOMIAL as nat;
    XorHalf(a, b);
    if a % 2 == 1 && b % 2 == 1 {
      XorAssoc(Xor(x, p), y, p);
      XorAssoc(x, p, y);
      XorComm(p, y);
      XorAssoc(x, y, p);
      XorAssoc(Xor(x, y), p, p);
      XorSelf(p);
      XorZero(Xor(x, y));
      XorPairs(x, y, p);
    } else if a % 2 == 1 {
      XorAssoc(x, p, y);
      XorComm(p, y);
      XorAssoc(x, y, p);
    } else if b % 2 == 1 {
      XorAssoc(x, y, p);
    }
  }

  lemma XorPairs(x: nat, y: nat, p: nat)
    ensures Xor(Xor(x, p), Xor(y, p)) == Xor(x, y)
  {
    XorComm(y, p);
    XorAssoc(Xor(x, p), p, y);
    XorAssoc(x, p, p);
    XorSelf(p);
    XorZero(x);
  }

  lemma FeedBitDifference(a: Word, b: Word, s: Bit, t: Bit)
    ensures XorWord(Shift(XorWord(a, s)), Shift(XorWord(b, t))) == Shift(XorWord(XorWord(a, b), XorWord(s, t)))
  {
    ShiftXor(XorWord(a, s), XorWord(b, t));
    XorAssoc(a, s, Xor(b, t));
    XorAssoc(s, b, t);
    XorComm(s, b);
    XorAssoc(b, s, t);
    XorAssoc(a, b, Xor(s, t));
  }

  /** The difference of two registers fed the same bits goes its own way. */
  lemma {:induction false} FeedDifference(a: Word, b: Word, bits: seq<Bit>)
    ensures XorWord(FeedBits(a, bits), FeedBits(b, bits)) == ShiftN(|bits|, XorWord(a, b))
    decreases bits
  {
    if bits != [] {
      FeedBitDifference(a, b, bits[0], bits[0]);
      XorSelf(bits[0]);
      XorZero(XorWord(a, b));
      FeedDifference(Shift(XorWord(a, bits[0])), Shift(XorWord(b, bits[0])), bits[1..]);
    }
  }

  lemma XorBits(x: Bit, y: Bit)
    requires x != y
    ensures Xor(x, y) == 1
  {
    XorZero(1);
  }

  /** Two bits flipped with fewer than 32767 positions between them leave their mark. */
  lemma PairSeparates(crc: Word, x: Bit, x': Bit, mid: seq<Bit>, y: Bit, y': Bit)
    requires x != x' && y != y' && |mid| + 1 < 32767
    ensures FeedBits(crc, [x] + mid + [y]) != FeedBits(crc, [x'] + mid + [y'])
  {
    var a, b := Shift(XorWord(crc, x)), Shift(XorWord(crc, x'));
    XorBits(x, x');
    XorBits(y, y');
    FeedBitDifference(crc, crc, x, x');
    XorSelf(crc);
    XorZero(1);
    assert XorWord(a, b) == Shift(1);
    var c, d := FeedBits(a, mid), FeedBits(b, mid);
    FeedDifference(a, b, mid);
    assert XorWord(c, d) == ShiftN(|mid| + 1, 1);
    BitReturns(|mid| + 1);
    XorClears(XorWord(c, d), 1);
    FeedBitDifference(c, d, y, y');
    var last, last' := Shift(XorWord(c, y)), Shift(XorWord(d, y'));
    ShiftNClears(1, XorWord(XorWord(c, d), 1));
    assert ShiftN(1, XorWord(XorWord(c, d), 1)) == Shift(XorWord(XorWord(c, d), 1));
    XorSelf(last);
    assert last != last';
    FeedEnds(crc, x, mid, y);
    FeedEnds(crc, x', mid, y');
  }

  lemma FeedEnds(crc: Word, x: Bit, mid: seq<Bit>, y: Bit)
    ensures FeedBits(crc, [x] + mid + [y]) == Shift(XorWord(FeedBits(Shift(XorWord(crc, x)), mid), y))
  {
    FeedAppend(crc, [x] + mid, [y]);
    assert ([x] + mid)[1..] == mid && [y][1..] == [];
  }

  /** `s` and `t` differ at the positions `i` and `j` and nowhere else. */
  predicate DifferAt(s: seq<Bit>, t: seq<Bit>, i: nat, j: nat)
    requires |s| == |t|
  {
    i < j < |s| && forall k | 0 <= k < |s| :: s[k] != t[k] <==> k == i || k == j
  }

  lemma SplitAt(s: seq<Bit>, i: nat, j: nat)
    requires i < j < |s|
    ensures s == s[..i] + (([s[i]] + s[i + 1..j] + [s[j]]) + s[j + 1..])
  {
  }

  lemma TwoFlips(crc: Word, s: seq<Bit>, t: seq<Bit>, i: nat, j: nat)
    requires |s| == |t| && DifferAt(s, t, i, j) && j - i < 32767
    ensures FeedBits(crc, s) != FeedBits(crc, t)
  {
    SplitAt(s, i, j);
    SplitAt(t, i, j);
    assert s[..i] == t[..i] && s[i + 1..j] == t[i + 1..j] && s[j + 1..] == t[j + 1..];
    var mid, tail := s[i + 1..j], s[j + 1..];
    var c := FeedBits(crc, s[..i]);
    var p, q := [s[i]] + mid + [s[j]], [t[i]] + mid + [t[j]];
    PairSeparates(c, s[i], t[i], mid, s[j], t[j]);
    FeedKeepsDifference(FeedBits(c, p), FeedBits(c, q), tail);
    FeedAppend(crc, s[..i], p + tail);
    FeedAppend(crc, t[..i], q + tail);
    FeedAppend(c, p, tail);
    FeedAppend(c, q, tail);
  }

  /** Any two flipped bits of a frame less than 32767 positions apart are reported. */
  lemma TwoErrorsDetected(frame: seq<Byte>, received: seq<Byte>, i: nat, j: nat)
    requires |frame| >= 4 && ChecksumMatches(frame) && |received| == |frame|
    requires DifferAt(Bits(frame), Bits(received), i, j) && j - i < 32767
    ensures RtuUnwrap(received) == Err(CRC_MISMATCH)
  {
    ChecksumIsResidue(frame);
    ChecksumIsResidue(received);
    CrcFeeds(0xFFFF, frame);
    CrcFeeds(0xFFFF, received);
    TwoFlips(0xFFFF, Bits(frame), Bits(received), i, j);
  }

  lemma {:induction false} NoDifference(s: seq<Bit>, t: seq<Bit>)
    requires |s| == |t| && Distance(s, t) == 0
    ensures s == t
  {
    if s != [] {
      NoDifference(s[1..], t[1..]);
    }
  }

  lemma {:induction false} OneDifference(s: seq<Bit>, t: seq<Bit>) returns (j: nat)
    requires |s| == |t| && Distance(s, t) == 1
    ensures j < |s| && forall k | 0 <= k < |s| :: s[k] != t[k] <==> k == j
  {
    if s[0] != t[0] {
      NoDifference(s[1..], t[1..]);
      assert forall k | 1 <= k < |s| :: s[k] == s[1..][k - 1] && t[k] == t[1..][k - 1];
      j := 0;
    } else {
      var rest := OneDifference(s[1..], t[1..]);
      assert forall k | 1 <= k < |s| :: s[k] == s[1..][k - 1] && t[k] == t[1..][k - 1];
      j := rest + 1;
    }
  }

  lemma {:induction false} TwoDifferences(s: seq<Bit>, t: seq<Bit>) returns (i: nat, j: nat)
    requires |s| == |t| && Distance(s, t) == 2
    ensures DifferAt(s, t, i, j)
  {
    if s[0] != t[0] {
      var rest := OneDifference(s[1..], t[1..]);
      assert forall k | 1 <= k < |s| :: s[k] == s[1..][k - 1] && t[k] == t[1..][k - 1];
      i, j := 0, rest + 1;
    } else {
      var a, b := TwoDifferences(s[1..], t[1..]);
      assert forall k | 1 <= k < |s| :: s[k] == s[1..][k - 1] && t[k] == t[1..][k - 1];
      i, j := a + 1, b + 1;
    }
  }

  lemma PairDetected(frame: seq<Byte>, received: seq<Byte>)
    requires |frame| >= 4 && ChecksumMatches(frame) && |received| == |frame|
    requires |Bits(frame)| <= 32767 && Distance(Bits(frame), Bits(received)) == 2
    ensures RtuUnwrap(received) == Err(CRC_MISMATCH)
  {
    var i, j := TwoDifferences(Bits(frame), Bits(received));
    TwoErrorsDetected(frame, received, i, j);
  }

  /** In frames of up to 4095 bytes up to three flipped bits are always reported, wherever they
      are: the code has minimum distance 4. */
  lemma ThreeErrorsDetected(frame: seq<Byte>, received: seq<Byte>, flips: nat)
    requires 4 <= |frame| <= 4095 && ChecksumMatches(frame) && |received| == |frame|
    requires flips == Distance(Bits(frame), Bits(received)) && 1 <= flips <= 3
    ensures RtuUnwrap(received) == Err(CRC_MISMATCH)
  {
    if flips == 2 {
      PairDetected(frame, received);
    } else {
      assert flips % 2 == 1;
      OddErrorsDetected(frame, received);
    }
  }
}
