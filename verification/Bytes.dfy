/** Fixed-width integers, big-endian byte strings and the result type shared by every module. */
module Bytes {

  type Byte = b: int | 0 <= b < 0x100
  type Word = w: int | 0 <= w < 0x1_0000

  datatype Option<+T> = None | Some(value: T)

  /** The value half of `Result<T>`, or the integer value of the error code. */
  datatype Result<+T> = Ok(value: T) | Err(error: int)

  const ILLEGAL_DATA_ADDRESS := 0x02
  const PIPELINE_OVERFLOW := 0x83
  const TRANSPORT_DISCONNECTED := 0x87
  const TIMEOUT_EXPIRED := 0x88
  const UNSUPPORTED_VERSION := 0x8A
  const INVALID_FRAME := 0x8D
  const CRC_MISMATCH := 0x8E
  const DESERIALIZATION_FAILED := 0x8F

  // The casts static_cast<uint8_t> and static_cast<uint16_t>.
  function ToByte(n: int): Byte { if 0 <= n < 0x100 then n else n % 0x100 }
  function ToWord(n: int): Word { if 0 <= n < 0x1_0000 then n else n % 0x1_0000 }

  /** The two bytes of a word, high byte first: the one pair that joins to it. */
  function WordBytes(w: Word): (bs: seq<Byte>)
    ensures |bs| == 2 && Join(bs[0], bs[1]) == w
  {
    assert w == Join(w / 0x100, w % 0x100);
    var hi: Byte, lo: Byte :| w == Join(hi, lo);
    [hi, lo]
  }

  /** `(hi << 8) | lo`. */
  function Join(hi: Byte, lo: Byte): Word { hi * 0x100 + lo }

  /** The pair of `push_back` calls that appends a 16-bit field. */
  method PushWord(out: seq<Byte>, w: Word) returns (r: seq<Byte>)
    ensures r == out + WordBytes(w)
  {
    r := out + [w / 0x100];
    r := r + [w % 0x100];
  }

  lemma JoinInjective(hi: Byte, lo: Byte)
    ensures WordBytes(Join(hi, lo)) == [hi, lo]
  {
  }

  lemma WordBytesAre(w: Word)
    ensures WordBytes(w) == [w / 0x100, w % 0x100]
  {
    JoinInjective(w / 0x100, w % 0x100);
  }

  // ---- arithmetic ---------------------------------------------------------

  lemma MulAtLeast(d: nat, k: int)
    requires d > 0
    ensures (k >= 1 ==> d * k >= d) && (k <= -1 ==> d * k + d <= 0)
  {
    if k >= 1 {
      assert d * k == d + d * (k - 1);
    } else if k <= -1 {
      assert d * k == d * (k + 1) - d;
    }
  }

  // ---- sequences ---------------------------------------------------------

  lemma Concat<T>(a: seq<T>, b: seq<T>, c: seq<T>)
    ensures (a + b) + c == a + (b + c)
  {
  }

  lemma DropFirst<T>(a: seq<T>, b: seq<T>)
    requires a != []
    ensures (a + b)[1..] == a[1..] + b
  {
  }

  lemma Slices<T>(s: seq<T>, i: nat, j: nat, k: nat)
    requires i <= j <= k <= |s|
    ensures s[i..j] + s[j..][..k - j] == s[i..k]
  {
  }

  lemma SliceOfTail<T>(s: seq<T>, k: nat, i: nat, j: nat)
    requires i <= j && k + j <= |s|
    ensures s[k..][i..j] == s[k + i..k + j]
  {
  }

  // ---- lists of registers as bytes -------------------------------------

  /** Registers packed high byte first, as every payload in the library carries them. */
  function PackWords(ws: seq<Word>): (bs: seq<Byte>)
    ensures |bs| == 2 * |ws|
  {
    if ws == [] then [] else WordBytes(ws[0]) + PackWords(ws[1..])
  }

  /** Registers read pairwise from a byte string; an odd last byte is dropped. */
  function UnpackWords(bs: seq<Byte>): (ws: seq<Word>)
    ensures |ws| == |bs| / 2
  {
    if |bs| < 2 then [] else [Join(bs[0], bs[1])] + UnpackWords(bs[2..])
  }

  lemma {:induction false} UnpackPack(ws: seq<Word>)
    ensures UnpackWords(PackWords(ws)) == ws
  {
    if ws != [] {
      assert PackWords(ws)[2..] == PackWords(ws[1..]);
      UnpackPack(ws[1..]);
    }
  }

  lemma {:induction false} PackAppend(ws: seq<Word>, w: Word)
    ensures PackWords(ws + [w]) == PackWords(ws) + WordBytes(w)
  {
    if ws != [] {
      assert (ws + [w])[1..] == ws[1..] + [w];
      PackAppend(ws[1..], w);
    } else {
      assert PackWords([w]) == WordBytes(w) + PackWords([]);
    }
  }

  lemma {:induction false} UnpackAppend(bs: seq<Byte>, hi: Byte, lo: Byte)
    requires |bs| % 2 == 0
    ensures UnpackWords(bs + [hi, lo]) == UnpackWords(bs) + [Join(hi, lo)]
  {
    if bs != [] {
      assert (bs + [hi, lo])[2..] == bs[2..] + [hi, lo];
      UnpackAppend(bs[2..], hi, lo);
    } else {
      assert UnpackWords([hi, lo][2..]) == [];
    }
  }

  /** Register `i` stands at bytes `2 * i` and `2 * i + 1`, high byte first. */
  lemma {:induction false} PackAt(ws: seq<Word>, i: nat)
    requires i < |ws|
    ensures PackWords(ws)[2 * i] == ws[i] / 0x100 && PackWords(ws)[2 * i + 1] == ws[i] % 0x100
  {
    WordBytesAre(ws[0]);
    if i > 0 {
      PackAt(ws[1..], i - 1);
    }
  }

  lemma {:induction false} UnpackAt(bs: seq<Byte>, i: nat)
    requires 2 * i + 1 < |bs|
    ensures UnpackWords(bs)[i] == (bs[2 * i] as int) * 0x100 + bs[2 * i + 1]
  {
    if i > 0 {
      UnpackAt(bs[2..], i - 1);
    }
  }

  /** One step of a loop that packs registers. */
  lemma PackPrefix(ws: seq<Word>, k: nat)
    requires k < |ws|
    ensures PackWords(ws[..k + 1]) == PackWords(ws[..k]) + WordBytes(ws[k])
  {
    assert ws[..k + 1] == ws[..k] + [ws[k]];
    PackAppend(ws[..k], ws[k]);
  }

  /** One step of a loop that reads registers pairwise. */
  lemma UnpackPrefix(bs: seq<Byte>, k: nat)
    requires k + 1 < |bs| && k % 2 == 0
    ensures UnpackWords(bs[..k + 2]) == UnpackWords(bs[..k]) + [Join(bs[k], bs[k + 1])]
  {
    assert bs[..k + 2] == bs[..k] + [bs[k], bs[k + 1]];
    UnpackAppend(bs[..k], bs[k], bs[k + 1]);
  }

  lemma {:induction false} PackUnpack(bs: seq<Byte>)
    requires |bs| % 2 == 0
    ensures PackWords(UnpackWords(bs)) == bs
  {
    if bs != [] {
      assert UnpackWords(bs)[1..] == UnpackWords(bs[2..]);
      PackUnpack(bs[2..]);
      JoinInjective(bs[0], bs[1]);
      assert bs == [bs[0], bs[1]] + bs[2..];
    }
  }

  /** The loop that appends registers to a payload. */
  method PushWords(out: seq<Byte>, ws: seq<Word>) returns (r: seq<Byte>)
    ensures r == out + PackWords(ws)
  {
    r := out;
    for i := 0 to |ws|
      invariant r == out + PackWords(ws[..i])
    {
      PackPrefix(ws, i);
      r := PushWord(r, ws[i]);
    }
    assert ws[..|ws|] == ws;
  }

  lemma EvenIsNotFull(x: nat)
    ensures 2 * x % 0x1_0000 != 0xFFFF
  {
    assert 2 * x % 0x1_0000 == 2 * (x - 0x8000 * (2 * x / 0x1_0000));
  }

  /** Reading a cut-off packing gives the registers that are complete. */
  lemma {:induction false} UnpackCut(ws: seq<Word>, k: nat)
    requires k <= 2 * |ws|
    ensures UnpackWords(PackWords(ws)[..k]) == ws[..k / 2]
  {
    if k >= 2 {
      assert PackWords(ws)[..k][2..] == PackWords(ws[1..])[..k - 2];
      UnpackCut(ws[1..], k - 2);
      assert ws[..k / 2] == [ws[0]] + ws[1..][..k / 2 - 1];
    }
  }

  // ---- intervals of addresses --------------------------------------------

  predicate InRange(a: int, lo: int, hi: int) { lo <= a < hi }

  function Interval(lo: int, hi: int): set<int>
  {
    set a | lo <= a < hi && InRange(a, lo, hi)
  }

  lemma {:induction false} IntervalSize(lo: int, hi: int)
    requires lo <= hi
    ensures |Interval(lo, hi)| == hi - lo
    decreases hi - lo
  {
    if lo < hi {
      IntervalSize(lo, hi - 1);
      assert Interval(lo, hi) == Interval(lo, hi - 1) + {hi - 1};
    }
  }

  lemma SubsetCardinality<T>(a: set<T>, b: set<T>)
    requires a <= b
    ensures |a| <= |b|
  {
    assert b == a + (b - a);
  }

  // ---- big-endian integers ----------------------------------------------

  function Pow256(n: nat): (p: nat)
    ensures p > 0
  {
    if n == 0 then 1 else 0x100 * Pow256(n - 1)
  }

  lemma Pow256Values()
    ensures Pow256(4) == 0x1_0000_0000 && Pow256(8) == 0x1_0000_0000_0000_0000
  {
    assert Pow256(2) == 0x1_0000;
    assert Pow256(4) == 0x1_0000_0000;
    assert Pow256(6) == 0x1_0000_0000_0000;
  }

  function BigEndian(n: nat, v: nat): (bs: seq<Byte>)
    ensures |bs| == n
  {
    if n == 0 then [] else BigEndian(n - 1, v / 0x100) + [v % 0x100]
  }

  function FromBigEndian(bs: seq<Byte>): nat
  {
    if bs == [] then 0 else FromBigEndian(bs[..|bs| - 1]) * 0x100 + bs[|bs| - 1]
  }

  lemma {:induction false} BigEndianRoundTrip(n: nat, v: nat)
    requires v < Pow256(n)
    ensures FromBigEndian(BigEndian(n, v)) == v
  {
    if n > 0 {
      BigEndianRoundTrip(n - 1, v / 0x100);
      assert BigEndian(n, v)[..n - 1] == BigEndian(n - 1, v / 0x100);
    }
  }

  lemma {:induction false} FromBigEndianRoundTrip(bs: seq<Byte>)
    ensures FromBigEndian(bs) < Pow256(|bs|)
    ensures BigEndian(|bs|, FromBigEndian(bs)) == bs
  {
    if bs != [] {
      FromBigEndianRoundTrip(bs[..|bs| - 1]);
      assert bs == bs[..|bs| - 1] + [bs[|bs| - 1]];
    }
  }
}
