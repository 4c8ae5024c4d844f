/** Strings in registers: two characters each, padded with NUL. */
module TypeCodec {
  import opened Bytes

  /** A plain `char`, signed as on the usual targets. */
  type Char8 = c: int | -0x80 <= c < 0x80

  /** `static_cast<std::uint16_t>(char)`: sign-extends. */
  function CharWord(c: Char8): Word { if c < 0 then c + 0x1_0000 else c }

  function CharByte(c: Char8): Byte { if c < 0 then c + 0x100 else c }

  function ByteChar(b: Byte): Char8 { if b >= 0x80 then b - 0x100 else b }

  /** The character in the high half of a register: `ch << 8` drops the sign extension. */
  function HighHalf(c: Char8): Word { CharByte(c) * 0x100 }

  /** `reg | ch` for a register whose low half is clear: the sign extension of a negative
      character overwrites the high half with ones. */
  function OrLow(reg: Word, c: Char8): Word
    requires reg % 0x100 == 0
  {
    if c < 0 then CharWord(c) else reg + c
  }

  /** Register `k` of the packed string. */
  function PackedWord(s: seq<Char8>, k: nat): Word
  {
    if 2 * k >= |s| then 0
    else if 2 * k + 1 == |s| then HighHalf(s[2 * k])
    else OrLow(HighHalf(s[2 * k]), s[2 * k + 1])
  }

  function EncodeString(s: seq<Char8>, n: nat): (regs: seq<Word>)
    ensures |regs| == n
  {
    seq(n, k requires k >= 0 => PackedWord(s, k))
  }

  /** Stops at the first NUL. */
  function DecodeString(regs: seq<Word>): seq<Char8>
  {
    if regs == [] then []
    else
      var hi, lo := ByteChar(regs[0] / 0x100), ByteChar(regs[0] % 0x100);
      if hi == 0 then [] else if lo == 0 then [hi] else [hi, lo] + DecodeString(regs[1..])
  }

  method EncodeStringRegs(s: seq<Char8>, n: nat) returns (regs: seq<Word>)
    ensures regs == EncodeString(s, n)
  {
    regs := seq(n, _ => 0);
    var i := 0;
    while i < |s| && i / 2 < n
      invariant i <= |s| && i <= 2 * n && |regs| == n
      invariant forall k | 0 <= k < n :: regs[k] == PackedWord(s[..i], k)
    {
      var k := i / 2;
      if i % 2 == 0 {
        regs := regs[k := HighHalf(s[i])];
      } else {
        assert regs[k] == HighHalf(s[2 * k]);
        regs := regs[k := OrLow(regs[k], s[i])];
      }
      i := i + 1;
    }
    assert i == |s| || i == 2 * n;
    forall k | 0 <= k < n
      ensures PackedWord(s[..i], k) == PackedWord(s, k)
    {
      if i == |s| {
        assert s[..i] == s;
      }
    }
  }

  method DecodeStringRegs(regs: seq<Word>) returns (result: seq<Char8>)
    ensures result == DecodeString(regs)
  {
    result := [];
    for i := 0 to |regs|
      invariant DecodeString(regs) == result + DecodeString(regs[i..])
    {
      ghost var rest := regs[i..];
      assert rest[1..] == regs[i + 1..];
      var hi, lo := ByteChar(regs[i] / 0x100), ByteChar(regs[i] % 0x100);
      if hi == 0 {
        break;
      }
      Concat(result, [hi, lo], DecodeString(rest[1..]));
      result := result + [hi];
      if lo == 0 {
        break;
      }
      result := result + [lo];
    }
  }

  // ---- what is kept -------------------------------------------------------------

  function Kept(s: seq<Char8>, n: nat): seq<Char8>
  {
    if |s| <= 2 * n then s else s[..2 * n]
  }

  /** No NUL, and no negative character in a low half unless the high half is all ones. */
  predicate Storable(t: seq<Char8>)
  {
    forall i :: 0 <= i < |t| ==> t[i] != 0 && (i % 2 == 1 && t[i] < 0 ==> t[i - 1] == -1)
  }

  lemma StorableStep(t: seq<Char8>)
    requires |t| >= 2
    ensures Storable(t) <==> t[0] != 0 && t[1] != 0 && (t[1] < 0 ==> t[0] == -1) && Storable(t[2..])
  {
    if Storable(t) {
      forall i | 0 <= i < |t[2..]|
        ensures t[2..][i] != 0 && (i % 2 == 1 && t[2..][i] < 0 ==> t[2..][i - 1] == -1)
      {
        assert t[2..][i] == t[i + 2];
      }
    }
    if Storable(t[2..]) {
      assert forall i | 2 <= i < |t| :: t[i] == t[2..][i - 2];
    }
  }

  lemma HalvesOf(s: seq<Char8>)
    ensures PackedWord(s, 0) / 0x100 == (if s == [] then 0 else if |s| >= 2 && s[1] < 0 then 0xFF else CharByte(s[0]))
    ensures PackedWord(s, 0) % 0x100 == if |s| < 2 then 0 else CharByte(s[1])
  {
  }

  lemma EncodeStringTail(s: seq<Char8>, n: nat)
    requires n > 0
    ensures EncodeString(s, n)[1..] == EncodeString(if |s| < 2 then [] else s[2..], n - 1)
  {
  }

  /** What a register holding `s0` and `s1` decodes to, in front of `rest`. */
  function DecodedPair(s0: Char8, s1: Char8, rest: seq<Char8>): seq<Char8>
  {
    var hi := if s1 < 0 then -1 else s0;
    if hi == 0 then [] else if s1 == 0 then [hi] else [hi, s1] + rest
  }

  lemma DecodeFirst(s: seq<Char8>, n: nat)
    requires n > 0 && |s| >= 2
    ensures DecodeString(EncodeString(s, n)) == DecodedPair(s[0], s[1], DecodeString(EncodeString(s[2..], n - 1)))
  {
    HalvesOf(s);
    EncodeStringTail(s, n);
    assert EncodeString(s, n)[0] == PackedWord(s, 0);
  }

  lemma PairKept(s0: Char8, s1: Char8, decoded: seq<Char8>, rest: seq<Char8>)
    ensures DecodedPair(s0, s1, decoded) == [s0, s1] + rest
       <==> s0 != 0 && s1 != 0 && (s1 < 0 ==> s0 == -1) && decoded == rest
  {
    var d := DecodedPair(s0, s1, decoded);
    if d == [s0, s1] + rest {
      assert d[0] == s0 && d[1] == s1;
      assert decoded == d[2..] && rest == ([s0, s1] + rest)[2..];
    }
  }

  lemma ShortString(s: seq<Char8>, n: nat)
    requires n > 0 && |s| < 2
    ensures DecodeString(EncodeString(s, n)) == s <==> Storable(s)
  {
    HalvesOf(s);
    assert EncodeString(s, n)[0] == PackedWord(s, 0);
  }

  /** A string comes back, truncated to what fits, exactly when the kept part is storable.
      Strings over the characters 1..127 always are. */
  lemma {:induction false} StringRoundTripIff(s: seq<Char8>, n: nat)
    ensures DecodeString(EncodeString(s, n)) == Kept(s, n) <==> Storable(Kept(s, n))
    decreases n
  {
    if n == 0 {
      assert Kept(s, 0) == [];
    } else if |s| < 2 {
      ShortString(s, n);
    } else {
      var rest := Kept(s[2..], n - 1);
      assert Kept(s, n) == [s[0], s[1]] + rest && Kept(s, n)[2..] == rest;
      StringRoundTripIff(s[2..], n - 1);
      DecodeFirst(s, n);
      PairKept(s[0], s[1], DecodeString(EncodeString(s[2..], n - 1)), rest);
      StorableStep(Kept(s, n));
    }
  }

  lemma PlainStringsStorable(s: seq<Char8>, n: nat)
    requires forall i | 0 <= i < |s| :: 1 <= s[i]
    ensures DecodeString(EncodeString(s, n)) == Kept(s, n)
  {
    StringRoundTripIff(s, n);
  }

  /** Any registers decode to at most two characters each, none of them NUL. */
  lemma {:induction false} DecodedStringShape(regs: seq<Word>)
    ensures |DecodeString(regs)| <= 2 * |regs|
    ensures forall i | 0 <= i < |DecodeString(regs)| :: DecodeString(regs)[i] != 0
  {
    if regs != [] {
      DecodedStringShape(regs[1..]);
    }
  }

  /** Byte `i` of a register list: the high half of a register, then the low half. */
  function HalfAt(regs: seq<Word>, i: nat): Byte
    requires i < 2 * |regs|
  {
    if i % 2 == 0 then regs[i / 2] / 0x100 else regs[i / 2] % 0x100
  }

  /** The decoded text is the signed bytes of the registers up to the first that is zero, or all. */
  lemma {:induction false} DecodedTextAt(regs: seq<Word>, i: nat)
    requires i < |DecodeString(regs)|
    ensures i < 2 * |regs|
    ensures DecodeString(regs)[i] == if HalfAt(regs, i) < 0x80 then HalfAt(regs, i) else HalfAt(regs, i) - 0x100
  {
    DecodedStringShape(regs);
    if i >= 2 {
      DecodedTextAt(regs[1..], i - 2);
      assert HalfAt(regs[1..], i - 2) == HalfAt(regs, i);
    }
  }

  lemma {:induction false} DecodedTextEnds(regs: seq<Word>)
    ensures var n := |DecodeString(regs)|; n == 2 * |regs| || (n < 2 * |regs| && HalfAt(regs, n) == 0)
  {
    if regs != [] {
      DecodedTextEnds(regs[1..]);
      var n := |DecodeString(regs)|;
      if n >= 2 && n < 2 * |regs| {
        assert HalfAt(regs[1..], n - 2) == HalfAt(regs, n);
      }
    }
  }

  /** Registers of a text without negative characters: two characters each, high half first,
      and zero beyond the end. */
  lemma PlainTextAt(s: seq<Char8>, n: nat, i: nat)
    requires i < 2 * n && forall j | 0 <= j < |s| :: s[j] >= 0
    ensures HalfAt(EncodeString(s, n), i) == if i < |s| then s[i] else 0
  {
    var k := i / 2;
    assert EncodeString(s, n)[k] == PackedWord(s, k);
    if 2 * k + 1 < |s| {
      Halves(s[2 * k], s[2 * k + 1]);
    } else if 2 * k < |s| {
      Halves(s[2 * k], 0);
    }
  }

  lemma Halves(hi: Char8, lo: Char8)
    requires hi >= 0 && lo >= 0
    ensures OrLow(HighHalf(hi), lo) / 0x100 == hi && OrLow(HighHalf(hi), lo) % 0x100 == lo
    ensures HighHalf(hi) / 0x100 == hi && HighHalf(hi) % 0x100 == 0
  {
  }

  /** An accented letter in a low half destroys its left neighbour. */
  lemma NegativeCharacterClobbers()
    ensures DecodeString(EncodeString([0x43, -0x17], 1)) == [-1, -0x17]
  {
    HalvesOf([0x43, -0x17]);
    assert EncodeString([0x43, -0x17], 1) == [PackedWord([0x43, -0x17], 0)];
    assert DecodeString([PackedWord([0x43, -0x17], 0)][1..]) == [];
  }
}
