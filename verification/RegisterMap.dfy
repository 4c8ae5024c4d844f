/** A typed store: descriptors with disjoint addresses laid over one flat register buffer. */
module RegisterMaps {
  import opened Bytes
  import opened Endian
  import opened TypeCodec

  datatype RegisterType = UInt16 | Int16 | UInt32 | Int32 | Float32 | Float64 | Text

  datatype Descriptor = Descriptor(kind: RegisterType, address: Word, count: Word, order: ByteOrder)

  /** Floating-point values are their bit patterns. */
  datatype Value =
    | VUInt16(u16: nat) | VInt16(i16: int) | VUInt32(u32: nat) | VInt32(i32: int)
    | VFloat32(f32: nat) | VFloat64(f64: nat) | VText(text: seq<Char8>)

  /** `v` is a value of the C++ type that `kind` stands for. */
  predicate HasType(v: Value, kind: RegisterType)
  {
    match v
    case VUInt16(u) => kind == UInt16 && u < 0x1_0000
    case VInt16(i) => kind == Int16 && -0x8000 <= i < 0x8000
    case VUInt32(u) => kind == UInt32 && u < 0x1_0000_0000
    case VInt32(i) => kind == Int32 && -0x8000_0000 <= i < 0x8000_0000
    case VFloat32(f) => kind == Float32 && f < 0x1_0000_0000
    case VFloat64(f) => kind == Float64 && f < 0x1_0000_0000_0000_0000
    case VText(_) => kind == Text
  }

  // ---- overlap detection -----------------------------------------------------------

  /** The exclusive end is a 16-bit constant. */
  function EndAddress(d: Descriptor): Word { ToWord(d.address + d.count) }

  predicate Overlap(a: Descriptor, b: Descriptor)
  {
    a.address < EndAddress(b) && b.address < EndAddress(a)
  }

  /** The template recursion over a descriptor list. */
  predicate NoOverlaps(ds: seq<Descriptor>)
    decreases |ds|
  {
    |ds| <= 1 ||
    (!Overlap(ds[0], ds[1]) && NoOverlaps([ds[0]] + ds[2..]) && NoOverlaps(ds[1..]))
  }

  predicate PairwiseApart(ds: seq<Descriptor>)
  {
    forall i, j :: 0 <= i < j < |ds| ==> !Overlap(ds[i], ds[j])
  }

  /** The recursion looks at every pair. */
  lemma {:induction false} NoOverlapsIsPairwise(ds: seq<Descriptor>)
    ensures NoOverlaps(ds) <==> PairwiseApart(ds)
    decreases |ds|
  {
    if |ds| > 1 {
      var front, back := [ds[0]] + ds[2..], ds[1..];
      NoOverlapsIsPairwise(front);
      NoOverlapsIsPairwise(back);
      assert forall i | 0 <= i < |back| :: back[i] == ds[i + 1];
      assert forall i | 1 <= i < |front| :: front[i] == ds[i + 1];
      if NoOverlaps(ds) {
        forall i, j | 0 <= i < j < |ds|
          ensures !Overlap(ds[i], ds[j])
        {
          if i > 0 {
            assert back[i - 1] == ds[i] && back[j - 1] == ds[j];
          } else if j > 1 {
            assert front[0] == ds[0] && front[j - 1] == ds[j];
          }
        }
      }
    }
  }

  predicate InSpace(d: Descriptor) { d.address + d.count <= 0x1_0000 }

  /** The range ends below the top address, so its end fits 16 bits. */
  predicate NoWrap(d: Descriptor) { d.address + d.count < 0x1_0000 }

  predicate Occupies(d: Descriptor, a: int) { d.address <= a < d.address + d.count }

  ghost predicate Shares(a: Descriptor, b: Descriptor) { exists addr: int :: Occupies(a, addr) && Occupies(b, addr) }

  /** Overlapping is having an address in common, except that nothing is found to overlap with
      a range that runs up to address 65535. */
  lemma OverlapIsSharing(a: Descriptor, b: Descriptor)
    requires InSpace(a) && InSpace(b) && a.count > 0 && b.count > 0
    ensures Overlap(a, b) <==> Shares(a, b) && NoWrap(a) && NoWrap(b)
  {
    if Overlap(a, b) {
      var addr := if a.address < b.address then b.address else a.address;
      assert Occupies(a, addr) && Occupies(b, addr);
    }
  }

  /** What the static assertion establishes, exactly. */
  lemma NoOverlapsExact(ds: seq<Descriptor>)
    requires forall d | d in ds :: InSpace(d) && d.count > 0
    ensures NoOverlaps(ds) <==>
      forall i, j | 0 <= i < j < |ds| :: Shares(ds[i], ds[j]) ==> !NoWrap(ds[i]) || !NoWrap(ds[j])
  {
    NoOverlapsIsPairwise(ds);
    forall i, j | 0 <= i < j < |ds|
      ensures Overlap(ds[i], ds[j]) <==> Shares(ds[i], ds[j]) && NoWrap(ds[i]) && NoWrap(ds[j])
    {
      OverlapIsSharing(ds[i], ds[j]);
    }
  }

  /** The end of a range at the very top is 0, so nothing is found to overlap with it. */
  lemma TopOverlapMissed()
    ensures
      var d := Descriptor(UInt16, 0xFFFF, 1, ABCD);
      NoOverlaps([d, d]) && Occupies(d, 0xFFFF)
  {
    var d := Descriptor(UInt16, 0xFFFF, 1, ABCD);
    NoOverlapsIsPairwise([d, d]);
  }

  // ---- offsets ------------------------------------------------------------------------

  /** The 16-bit running sum of the counts before descriptor `i`. */
  function Offset(ds: seq<Descriptor>, i: nat): Word
    requires i <= |ds|
  {
    if i == 0 then 0 else ToWord(Offset(ds, i - 1) + ds[i - 1].count)
  }

  function Total(ds: seq<Descriptor>): nat
  {
    if ds == [] then 0 else Total(ds[..|ds| - 1]) + ds[|ds| - 1].count
  }

  predicate OccupiedBy(ds: seq<Descriptor>, a: int) { exists d :: d in ds && Occupies(d, a) }

  function Occupied(ds: seq<Descriptor>): set<int>
  {
    set a | 0 <= a < 0x1_0000 && OccupiedBy(ds, a)
  }

  /** No descriptor occupies an address of one before it. */
  ghost predicate Disjoint(ds: seq<Descriptor>)
  {
    ds == [] ||
    var n := |ds| - 1;
    Disjoint(ds[..n]) && forall a: int :: !(OccupiedBy(ds[..n], a) && Occupies(ds[n], a))
  }

  lemma {:induction false} ApartIsDisjoint(ds: seq<Descriptor>)
    requires PairwiseApart(ds) && forall d | d in ds :: NoWrap(d) && d.count > 0
    ensures Disjoint(ds)
  {
    if ds != [] {
      var n := |ds| - 1;
      forall i, j | 0 <= i < j < |ds[..n]|
        ensures !Overlap(ds[..n][i], ds[..n][j])
      {
        assert ds[..n][i] == ds[i] && ds[..n][j] == ds[j];
      }
      ApartIsDisjoint(ds[..n]);
      forall a: int | OccupiedBy(ds[..n], a)
        ensures !Occupies(ds[n], a)
      {
        var d :| d in ds[..n] && Occupies(d, a);
        var i :| 0 <= i < n && ds[i] == d;
        OverlapIsSharing(ds[i], ds[n]);
      }
    }
  }

  lemma {:induction false} OccupiedSize(ds: seq<Descriptor>)
    requires Disjoint(ds) && forall d | d in ds :: NoWrap(d)
    ensures |Occupied(ds)| == Total(ds)
  {
    if ds == [] {
      assert Occupied(ds) == {};
    } else {
      var n := |ds| - 1;
      var d := ds[n];
      var own := Interval(d.address, d.address + d.count);
      assert NoWrap(d) && ds == ds[..n] + [d];
      OccupiedSize(ds[..n]);
      IntervalSize(d.address, d.address + d.count);
      forall a
        ensures a in Occupied(ds) <==> a in Occupied(ds[..n]) || a in own
      {
        assert OccupiedBy(ds, a) <==> OccupiedBy(ds[..n], a) || Occupies(d, a);
      }
      assert Occupied(ds) == Occupied(ds[..n]) + own;
      assert Occupied(ds[..n]) !! own;
    }
  }

  /** Disjoint addresses leave no room for the 16-bit offsets to wrap: a map that passes the
      static assertions below the top address has a sound layout. */
  lemma TotalFits(ds: seq<Descriptor>)
    requires NoOverlaps(ds) && forall d | d in ds :: NoWrap(d) && d.count > 0
    ensures Total(ds) < 0x1_0000
  {
    NoOverlapsIsPairwise(ds);
    ApartIsDisjoint(ds);
    OccupiedSize(ds);
    IntervalSize(0, 0xFFFF);
    assert forall a | a in Occupied(ds) :: a in Interval(0, 0xFFFF);
    SubsetCardinality(Occupied(ds), Interval(0, 0xFFFF));
  }

  lemma {:induction false} OffsetIsTotal(ds: seq<Descriptor>, i: nat)
    requires i <= |ds| && Total(ds[..i]) < 0x1_0000
    ensures Offset(ds, i) == Total(ds[..i])
  {
    if i > 0 {
      assert ds[..i][..i - 1] == ds[..i - 1];
      OffsetIsTotal(ds, i - 1);
    }
  }

  lemma {:induction false} TotalMonotone(ds: seq<Descriptor>, i: nat, j: nat)
    requires i < j <= |ds|
    ensures Total(ds[..i]) + ds[i].count <= Total(ds[..j])
  {
    assert ds[..j][..j - 1] == ds[..j - 1];
    if i < j - 1 {
      TotalMonotone(ds, i, j - 1);
    }
  }

  /** The slots of different descriptors do not touch, and all lie within the total. */
  lemma SlotsDisjoint(ds: seq<Descriptor>, i: nat, j: nat)
    requires i < j < |ds| && Total(ds) < 0x1_0000
    ensures Offset(ds, i) + ds[i].count <= Offset(ds, j)
    ensures Offset(ds, j) + ds[j].count <= Total(ds)
  {
    assert ds[..|ds|] == ds;
    TotalMonotone(ds, i, j);
    TotalMonotone(ds, j, |ds|);
    OffsetIsTotal(ds, i);
    OffsetIsTotal(ds, j);
  }

  lemma SlotInside(ds: seq<Descriptor>, i: nat)
    requires i < |ds| && Total(ds) < 0x1_0000
    ensures Offset(ds, i) + ds[i].count <= Total(ds)
  {
    assert ds[..|ds|] == ds;
    TotalMonotone(ds, i, |ds|);
    OffsetIsTotal(ds, i);
  }

  // ---- values in registers ----------------------------------------------------------------

  /** How many registers a value of this kind is written to. */
  function Width(d: Descriptor): nat
  {
    match d.kind
    case UInt16 => 1 case Int16 => 1
    case UInt32 => 2 case Int32 => 2 case Float32 => 2
    case Float64 => 4
    case Text => d.count
  }

  /** Two's complement, as `memcpy` between signed and unsigned sees it. */
  function ToUnsigned(v: int, m: nat): int { if v < 0 then v + m else v }

  function ToSigned(u: nat, m: nat): int { if 2 * u < m then u else u - m }

  /** The registers that `encode_register` stores. */
  function EncodeValue(d: Descriptor, v: Value): (regs: seq<Word>)
    requires HasType(v, d.kind)
    ensures |regs| == Width(d)
  {
    match v
    case VUInt16(u) => [u]
    case VInt16(i) => [ToUnsigned(i, 0x1_0000)]
    case VUInt32(u) => EncodeRegs(2, d.order, u)
    case VInt32(i) => EncodeRegs(2, d.order, ToUnsigned(i, 0x1_0000_0000))
    case VFloat32(f) => EncodeRegs(2, d.order, f)
    case VFloat64(f) => EncodeRegs(4, d.order, f)
    case VText(s) => EncodeString(s, d.count)
  }

  function DecodeValue(d: Descriptor, regs: seq<Word>): Value
    requires |regs| == Width(d)
  {
    match d.kind
    case UInt16 => VUInt16(regs[0])
    case Int16 => VInt16(ToSigned(regs[0], 0x1_0000))
    case UInt32 => VUInt32(DecodeRegs(d.order, regs))
    case Int32 => VInt32(ToSigned(DecodeRegs(d.order, regs), 0x1_0000_0000))
    case Float32 => VFloat32(DecodeRegs(d.order, regs))
    case Float64 => VFloat64(DecodeRegs(d.order, regs))
    case Text => VText(DecodeString(regs))
  }

  /** What a descriptor can hold unchanged; texts are cut to the slot. */
  predicate Representable(d: Descriptor, v: Value)
  {
    v.VText? ==> Storable(Kept(v.text, d.count))
  }

  function Stored(d: Descriptor, v: Value): Value
  {
    if v.VText? then VText(Kept(v.text, d.count)) else v
  }

  lemma PatternRoundTrip(n: nat, order: ByteOrder, v: nat)
    requires (n == 2 && v < 0x1_0000_0000) || (n == 4 && v < 0x1_0000_0000_0000_0000)
    ensures DecodeRegs(order, EncodeRegs(n, order, v)) == v
  {
    Pow256Values();
    RegsRoundTrip(n, order, v);
  }

  /** Every type under every byte order comes back, texts exactly when representable. */
  lemma ValueRoundTrip(d: Descriptor, v: Value)
    requires HasType(v, d.kind)
    ensures DecodeValue(d, EncodeValue(d, v)) == Stored(d, v) <==> Representable(d, v)
  {
    match v
    case VUInt16(u) =>
    case VInt16(i) =>
    case VUInt32(u) => PatternRoundTrip(2, d.order, u);
    case VInt32(i) => PatternRoundTrip(2, d.order, ToUnsigned(i, 0x1_0000_0000));
    case VFloat32(f) => PatternRoundTrip(2, d.order, f);
    case VFloat64(f) => PatternRoundTrip(4, d.order, f);
    case VText(s) => StringRoundTripIff(s, d.count);
  }

  /** Integers stand in two's complement, floating-point values as their patterns, and texts two
      characters to the register; `Endian.DecodedPair` and `Endian.DecodedQuad` say in numbers
      what registers stand for under each byte order. */
  lemma ValueInRegisters(d: Descriptor, v: Value)
    requires HasType(v, d.kind)
    ensures match v
      case VUInt16(u) => EncodeValue(d, v) == [u]
      case VInt16(i) => EncodeValue(d, v) == [if i >= 0 then i else 0x1_0000 + i]
      case VUInt32(u) => |EncodeValue(d, v)| == 2 && DecodeRegs(d.order, EncodeValue(d, v)) == u
      case VInt32(i) => |EncodeValue(d, v)| == 2
                        && DecodeRegs(d.order, EncodeValue(d, v)) == if i >= 0 then i else 0x1_0000_0000 + i
      case VFloat32(f) => |EncodeValue(d, v)| == 2 && DecodeRegs(d.order, EncodeValue(d, v)) == f
      case VFloat64(f) => |EncodeValue(d, v)| == 4 && DecodeRegs(d.order, EncodeValue(d, v)) == f
      case VText(s) => |EncodeValue(d, v)| == d.count && PlainTextIn(s, EncodeValue(d, v))
  {
    match v
    case VUInt16(u) =>
    case VInt16(i) =>
    case VUInt32(u) => PatternRoundTrip(2, d.order, u);
    case VInt32(i) => PatternRoundTrip(2, d.order, ToUnsigned(i, 0x1_0000_0000));
    case VFloat32(f) => PatternRoundTrip(2, d.order, f);
    case VFloat64(f) => PatternRoundTrip(4, d.order, f);
    case VText(s) => AllPlainText(s, d.count);
  }

  /** A text without negative characters fills the registers byte by byte, zero after its end. */
  predicate PlainTextIn(s: seq<Char8>, regs: seq<Word>)
  {
    (forall j | 0 <= j < |s| :: s[j] >= 0) ==>
      forall i | 0 <= i < 2 * |regs| :: HalfAt(regs, i) == if i < |s| then s[i] else 0
  }

  lemma AllPlainText(s: seq<Char8>, n: nat)
    ensures PlainTextIn(s, EncodeString(s, n))
  {
    if forall j | 0 <= j < |s| :: s[j] >= 0 {
      forall i | 0 <= i < 2 * n
        ensures HalfAt(EncodeString(s, n), i) == if i < |s| then s[i] else 0
      {
        PlainTextAt(s, n, i);
      }
    }
  }

  // ---- the store ------------------------------------------------------------------------

  /** No slot but the last is shorter than its type. */
  predicate LongEnough(ds: seq<Descriptor>)
  {
    forall i | 0 <= i < |ds| - 1 :: ds[i].count >= Width(ds[i])
  }

  /** A buffer of `n` registers holds every slot. */
  predicate Holds(ds: seq<Descriptor>, n: nat)
  {
    forall i | 0 <= i < |ds| :: Offset(ds, i) + Width(ds[i]) <= n
  }

  /** Overwrites a slice of the buffer. */
  function Splice(buf: seq<Word>, at: nat, regs: seq<Word>): (r: seq<Word>)
    requires at + |regs| <= |buf|
    ensures |r| == |buf|
    ensures forall k | 0 <= k < |buf| :: r[k] == if at <= k < at + |regs| then regs[k - at] else buf[k]
  {
    buf[..at] + regs + buf[at + |regs|..]
  }

  lemma SpliceSlices(buf: seq<Word>, at: nat, regs: seq<Word>, lo: nat, hi: nat)
    requires at + |regs| <= |buf| && lo <= hi <= |buf|
    ensures Splice(buf, at, regs)[at..at + |regs|] == regs
    ensures hi <= at || at + |regs| <= lo ==> Splice(buf, at, regs)[lo..hi] == buf[lo..hi]
  {
  }

  predicate SlotFits(ds: seq<Descriptor>, buf: seq<Word>, i: nat)
  {
    i < |ds| && Offset(ds, i) + Width(ds[i]) <= |buf|
  }

  function EncodeAt(ds: seq<Descriptor>, buf: seq<Word>, i: nat, v: Value): seq<Word>
    requires SlotFits(ds, buf, i) && HasType(v, ds[i].kind)
  {
    Splice(buf, Offset(ds, i), EncodeValue(ds[i], v))
  }

  function SlotOf(ds: seq<Descriptor>, buf: seq<Word>, i: nat): (regs: seq<Word>)
    requires SlotFits(ds, buf, i)
    ensures |regs| == Width(ds[i])
  {
    buf[Offset(ds, i)..Offset(ds, i) + Width(ds[i])]
  }

  function DecodeAt(ds: seq<Descriptor>, buf: seq<Word>, i: nat): Value
    requires SlotFits(ds, buf, i)
  {
    DecodeValue(ds[i], SlotOf(ds, buf, i))
  }

  /** `encode_register`, up to the stores. */
  method EncodeRegister(d: Descriptor, v: Value) returns (encoded: seq<Word>)
    requires HasType(v, d.kind)
    ensures encoded == EncodeValue(d, v)
  {
    match v {
      case VUInt16(u) => encoded := [u];
      case VInt16(n) => encoded := [ToUnsigned(n, 0x1_0000)];
      case VUInt32(u) => encoded := EncodeToRegisters(2, d.order, u);
      case VInt32(n) => encoded := EncodeToRegisters(2, d.order, ToUnsigned(n, 0x1_0000_0000));
      case VFloat32(f) => encoded := EncodeToRegisters(2, d.order, f);
      case VFloat64(f) => encoded := EncodeToRegisters(4, d.order, f);
      case VText(s) => encoded := EncodeStringRegs(s, d.count);
    }
  }

  /** `RegisterMap::encode`: element-wise stores into the caller's buffer. */
  method Encode(ds: seq<Descriptor>, i: nat, v: Value, regs: array<Word>)
    requires SlotFits(ds, regs[..], i) && HasType(v, ds[i].kind)
    modifies regs
    ensures regs[..] == EncodeAt(ds, old(regs[..]), i, v)
  {
    var at := Offset(ds, i);
    var encoded := EncodeRegister(ds[i], v);
    for k := 0 to |encoded|
      invariant forall j | 0 <= j < regs.Length ::
        regs[j] == if at <= j < at + k then encoded[j - at] else old(regs[j])
    {
      regs[at + k] := encoded[k];
    }
  }

  method Decode(ds: seq<Descriptor>, i: nat, regs: seq<Word>) returns (v: Value)
    requires SlotFits(ds, regs, i)
    ensures v == DecodeAt(ds, regs, i)
  {
    var at, d := Offset(ds, i), ds[i];
    var slice := regs[at..at + Width(d)];
    match d.kind {
      case UInt16 => v := VUInt16(slice[0]);
      case Int16 => v := VInt16(ToSigned(slice[0], 0x1_0000));
      case UInt32 => var u := DecodeFromRegisters(d.order, slice); v := VUInt32(u);
      case Int32 => var u := DecodeFromRegisters(d.order, slice); v := VInt32(ToSigned(u, 0x1_0000_0000));
      case Float32 => var u := DecodeFromRegisters(d.order, slice); v := VFloat32(u);
      case Float64 => var u := DecodeFromRegisters(d.order, slice); v := VFloat64(u);
      case Text => var s := DecodeStringRegs(slice); v := VText(s);
    }
  }

  // ---- runs of writes ----------------------------------------------------------------------

  datatype Write = Write(index: nat, value: Value)

  predicate ValidWrites(ds: seq<Descriptor>, ws: seq<Write>)
  {
    forall w | w in ws :: w.index < |ds| && HasType(w.value, ds[w.index].kind)
  }

  /** The buffer after the writes, in order. */
  function Run(ds: seq<Descriptor>, buf: seq<Word>, ws: seq<Write>): (r: seq<Word>)
    requires Holds(ds, |buf|) && ValidWrites(ds, ws)
    ensures |r| == |buf|
  {
    if ws == [] then buf
    else
      var n := |ws| - 1;
      assert ws[n] in ws;
      EncodeAt(ds, Run(ds, buf, ws[..n]), ws[n].index, ws[n].value)
  }

  predicate Touches(ws: seq<Write>, i: nat) { exists w :: w in ws && w.index == i }

  /** The value last written to descriptor `i`. */
  function Last(ws: seq<Write>, i: nat): Value
    requires Touches(ws, i)
  {
    var n := |ws| - 1;
    assert ws == ws[..n] + [ws[n]];
    if ws[n].index == i then ws[n].value else Last(ws[..n], i)
  }

  lemma SlotsApart(ds: seq<Descriptor>, i: nat, j: nat)
    requires LongEnough(ds) && Total(ds) < 0x1_0000 && i < |ds| && j < |ds| && i != j
    ensures Offset(ds, i) + Width(ds[i]) <= Offset(ds, j) || Offset(ds, j) + Width(ds[j]) <= Offset(ds, i)
  {
    if i < j {
      SlotsDisjoint(ds, i, j);
    } else {
      SlotsDisjoint(ds, j, i);
    }
  }

  lemma SlotsKept(ds: seq<Descriptor>, buf: seq<Word>, i: nat, regs: seq<Word>, after: seq<Word>, j: nat)
    requires LongEnough(ds) && Total(ds) < 0x1_0000 && Holds(ds, |buf|) && i < |ds| && j < |ds|
    requires |regs| == Width(ds[i]) && SlotFits(ds, buf, i) && after == Splice(buf, Offset(ds, i), regs)
    ensures SlotOf(ds, after, j) == if i == j then regs else SlotOf(ds, buf, j)
  {
    SpliceSlices(buf, Offset(ds, i), regs, Offset(ds, j), Offset(ds, j) + Width(ds[j]));
    if i != j {
      SlotsApart(ds, i, j);
    }
  }

  /** Writing one descriptor is invisible through all others. */
  lemma WriteIsLocal(ds: seq<Descriptor>, buf: seq<Word>, i: nat, v: Value, j: nat)
    requires LongEnough(ds) && Total(ds) < 0x1_0000 && Holds(ds, |buf|) && i < |ds| && j < |ds|
    requires HasType(v, ds[i].kind)
    ensures DecodeAt(ds, EncodeAt(ds, buf, i, v), j)
         == if i == j then DecodeValue(ds[i], EncodeValue(ds[i], v)) else DecodeAt(ds, buf, j)
  {
    SlotsKept(ds, buf, i, EncodeValue(ds[i], v), EncodeAt(ds, buf, i, v), j);
  }

  /** Descriptor `i` reads as the last value written to it, or as before where nothing was
      written. */
  predicate ReadsBack(ds: seq<Descriptor>, buf: seq<Word>, ws: seq<Write>, i: nat)
    requires Holds(ds, |buf|) && ValidWrites(ds, ws) && i < |ds|
  {
    DecodeAt(ds, Run(ds, buf, ws), i)
    == if Touches(ws, i) then Stored(ds[i], Last(ws, i)) else DecodeAt(ds, buf, i)
  }

  predicate AllRepresentable(ds: seq<Descriptor>, ws: seq<Write>)
    requires ValidWrites(ds, ws)
  {
    forall w | w in ws :: Representable(ds[w.index], w.value)
  }

  lemma LastStep(ds: seq<Descriptor>, buf: seq<Word>, w: Write, i: nat)
    requires LongEnough(ds) && Total(ds) < 0x1_0000 && Holds(ds, |buf|) && i < |ds|
    requires w.index < |ds| && HasType(w.value, ds[w.index].kind) && Representable(ds[w.index], w.value)
    ensures DecodeAt(ds, EncodeAt(ds, buf, w.index, w.value), i)
         == if w.index == i then Stored(ds[i], w.value) else DecodeAt(ds, buf, i)
  {
    WriteIsLocal(ds, buf, w.index, w.value, i);
    if w.index == i {
      ValueRoundTrip(ds[i], w.value);
    }
  }

  lemma TouchesLast(ws: seq<Write>, i: nat)
    requires ws != []
    ensures Touches(ws, i) <==> ws[|ws| - 1].index == i || Touches(ws[..|ws| - 1], i)
  {
    assert ws == ws[..|ws| - 1] + [ws[|ws| - 1]];
  }

  /** After any sequence of writes a descriptor reads as the last value written to it, and as
      before where nothing was written. */
  lemma {:induction false} LastWriteWins(ds: seq<Descriptor>, buf: seq<Word>, ws: seq<Write>, i: nat)
    requires LongEnough(ds) && Total(ds) < 0x1_0000 && Holds(ds, |buf|) && i < |ds|
    requires ValidWrites(ds, ws) && AllRepresentable(ds, ws)
    ensures ReadsBack(ds, buf, ws, i)
    decreases ws
  {
    if ws != [] {
      var n := |ws| - 1;
      assert ws[n] in ws;
      LastWriteWins(ds, buf, ws[..n], i);
      LastStep(ds, Run(ds, buf, ws[..n]), ws[n], i);
      TouchesLast(ws, i);
    }
  }

  /** A register outside the slots that were written keeps its contents. */
  lemma {:induction false} OutsideUntouched(ds: seq<Descriptor>, buf: seq<Word>, ws: seq<Write>, k: nat)
    requires Holds(ds, |buf|) && ValidWrites(ds, ws) && k < |buf|
    requires forall w | w in ws :: !(Offset(ds, w.index) <= k < Offset(ds, w.index) + Width(ds[w.index]))
    ensures Run(ds, buf, ws)[k] == buf[k]
    decreases ws
  {
    if ws != [] {
      var n := |ws| - 1;
      assert ws == ws[..n] + [ws[n]] && ws[n] in ws;
      OutsideUntouched(ds, buf, ws[..n], k);
    }
  }

  // ---- exactly which maps are stores -----------------------------------------------------------

  /** For every buffer and every sequence of representable writes, every descriptor reads back. */
  ghost predicate TypedStore(ds: seq<Descriptor>)
  {
    forall buf: seq<Word>, ws: seq<Write>, i: nat |
      Holds(ds, |buf|) && ValidWrites(ds, ws) && AllRepresentable(ds, ws) && i < |ds| :: ReadsBack(ds, buf, ws, i)
  }

  /** A value of a type wider than one register, given the registers. */
  function ValueOf(d: Descriptor, regs: seq<Word>): Value
    requires d.kind.UInt32? || d.kind.Int32? || d.kind.Float32? || d.kind.Float64?
    requires |regs| == Width(d)
  {
    var u := DecodeRegs(d.order, regs);
    if d.kind.UInt32? then VUInt32(u)
    else if d.kind.Int32? then VInt32(ToSigned(u, 0x1_0000_0000))
    else if d.kind.Float32? then VFloat32(u)
    else VFloat64(u)
  }

  lemma ValueOfEncodes(d: Descriptor, regs: seq<Word>)
    requires d.kind.UInt32? || d.kind.Int32? || d.kind.Float32? || d.kind.Float64?
    requires |regs| == Width(d)
    ensures HasType(ValueOf(d, regs), d.kind) && EncodeValue(d, ValueOf(d, regs)) == regs
    ensures Representable(d, ValueOf(d, regs))
  {
    RegsSurjective(d.order, regs);
    if d.kind.Int32? {
      SignDropped(DecodeRegs(d.order, regs));
    }
  }

  lemma SignDropped(u: nat)
    requires u < 0x1_0000_0000
    ensures -0x8000_0000 <= ToSigned(u, 0x1_0000_0000) < 0x8000_0000
    ensures ToUnsigned(ToSigned(u, 0x1_0000_0000), 0x1_0000_0000) == u
  {
  }

  /** A slot of zeros does not decode to the same value as one that begins with 0x4141. */
  lemma DecodesDiffer(d: Descriptor, p: seq<Word>, q: seq<Word>)
    requires d.count > 0 && |p| == |q| == Width(d) && p[0] == 0 && q[0] == 0x4141
    ensures DecodeValue(d, p) != DecodeValue(d, q)
  {
    match d.kind
    case UInt16 =>
    case Int16 =>
    case UInt32 => NumbersDiffer(d.order, p, q);
    case Int32 => NumbersDiffer(d.order, p, q);
    case Float32 => NumbersDiffer(d.order, p, q);
    case Float64 => NumbersDiffer(d.order, p, q);
    case Text =>
  }

  lemma NumbersDiffer(order: ByteOrder, p: seq<Word>, q: seq<Word>)
    requires |p| == |q| && (|p| == 2 || |p| == 4) && p[0] != q[0]
    ensures DecodeRegs(order, p) != DecodeRegs(order, q)
    ensures |p| == 2 ==> ToSigned(DecodeRegs(order, p), 0x1_0000_0000) != ToSigned(DecodeRegs(order, q), 0x1_0000_0000)
  {
    if DecodeRegs(order, p) == DecodeRegs(order, q) {
      RegsInjective(order, p, q);
    }
    if |p| == 2 {
      RegsSurjective(order, p);
      RegsSurjective(order, q);
    }
  }

  lemma ShortSlotOverlaps(ds: seq<Descriptor>, i: nat)
    requires Total(ds) < 0x1_0000 && i + 1 < |ds| && ds[i].count < Width(ds[i])
    ensures Offset(ds, i + 1) == Offset(ds, i) + ds[i].count
  {
    SlotsDisjoint(ds, i, i + 1);
  }

  lemma RoomForAll(ds: seq<Descriptor>)
    requires Total(ds) < 0x1_0000 && forall d | d in ds :: d.count > 0
    ensures Holds(ds, Total(ds) + 4)
  {
    forall i | 0 <= i < |ds|
      ensures Offset(ds, i) + Width(ds[i]) <= Total(ds) + 4
    {
      SlotInside(ds, i);
      assert ds[i] in ds;
    }
  }

  lemma ShortSlotSpills(ds: seq<Descriptor>, i: nat, buf: seq<Word>, regs: seq<Word>, after: seq<Word>)
    requires Total(ds) < 0x1_0000 && i + 1 < |ds| && ds[i].count < Width(ds[i])
    requires ds[i].count > 0 && ds[i + 1].count > 0 && Holds(ds, |buf|)
    requires |regs| == Width(ds[i]) && SlotFits(ds, buf, i) && after == Splice(buf, Offset(ds, i), regs)
    ensures SlotOf(ds, after, i + 1)[0] == regs[ds[i].count] && SlotOf(ds, buf, i + 1)[0] == buf[Offset(ds, i + 1)]
  {
    ShortSlotOverlaps(ds, i);
  }

  /** A slot that is too short and not the last: writing it shows through the next one. */
  lemma ShortSlotClobbers(ds: seq<Descriptor>, buf: seq<Word>, i: nat, regs: seq<Word>, after: seq<Word>)
    requires Total(ds) < 0x1_0000 && i + 1 < |ds| && ds[i].count < Width(ds[i])
    requires ds[i].count > 0 && ds[i + 1].count > 0
    requires Holds(ds, |buf|) && forall k | 0 <= k < |buf| :: buf[k] == 0
    requires |regs| == Width(ds[i]) && forall k | 0 <= k < |regs| :: regs[k] == 0x4141
    requires SlotFits(ds, buf, i) && after == Splice(buf, Offset(ds, i), regs)
    ensures DecodeAt(ds, after, i + 1) != DecodeAt(ds, buf, i + 1)
  {
    ShortSlotSpills(ds, i, buf, regs, after);
    DecodesDiffer(ds[i + 1], SlotOf(ds, buf, i + 1), SlotOf(ds, after, i + 1));
  }

  lemma OneWrite(ds: seq<Descriptor>, buf: seq<Word>, w: Write, j: nat)
    requires Holds(ds, |buf|) && w.index < |ds| && HasType(w.value, ds[w.index].kind) && j < |ds| && j != w.index
    ensures ValidWrites(ds, [w]) && Run(ds, buf, [w]) == EncodeAt(ds, buf, w.index, w.value)
    ensures !Touches([w], j)
  {
    assert [w][..0] == [];
    assert Run(ds, buf, []) == buf;
  }

  /** A single write that shows through another descriptor refutes the store. */
  lemma ShowsThrough(ds: seq<Descriptor>, buf: seq<Word>, w: Write, j: nat, after: seq<Word>)
    requires Holds(ds, |buf|) && w.index < |ds| && HasType(w.value, ds[w.index].kind) && j < |ds| && j != w.index
    requires Representable(ds[w.index], w.value) && after == EncodeAt(ds, buf, w.index, w.value)
    requires DecodeAt(ds, after, j) != DecodeAt(ds, buf, j)
    ensures !TypedStore(ds)
  {
    OneWrite(ds, buf, w, j);
    assert AllRepresentable(ds, [w]) && !ReadsBack(ds, buf, [w], j);
  }

  lemma ShortSlotBreaks(ds: seq<Descriptor>, buf: seq<Word>, regs: seq<Word>, w: Write)
    requires Total(ds) < 0x1_0000 && w.index + 1 < |ds| && ds[w.index].count < Width(ds[w.index])
    requires ds[w.index].count > 0 && ds[w.index + 1].count > 0
    requires Holds(ds, |buf|) && forall k | 0 <= k < |buf| :: buf[k] == 0
    requires forall k | 0 <= k < |regs| :: regs[k] == 0x4141
    requires HasType(w.value, ds[w.index].kind) && EncodeValue(ds[w.index], w.value) == regs
    requires Representable(ds[w.index], w.value)
    ensures !TypedStore(ds)
  {
    var after := EncodeAt(ds, buf, w.index, w.value);
    ShortSlotClobbers(ds, buf, w.index, regs, after);
    ShowsThrough(ds, buf, w, w.index + 1, after);
  }

  /** A map whose offsets fit 16 bits is a typed store if and only if no slot but the last is
      shorter than its type. The static assertions do not ask for that. */
  lemma TypedStoreIff(ds: seq<Descriptor>)
    requires Total(ds) < 0x1_0000 && forall d | d in ds :: d.count > 0
    ensures TypedStore(ds) <==> LongEnough(ds)
  {
    if LongEnough(ds) {
      forall buf: seq<Word>, ws: seq<Write>, i: nat |
        Holds(ds, |buf|) && ValidWrites(ds, ws) && AllRepresentable(ds, ws) && i < |ds|
        ensures ReadsBack(ds, buf, ws, i)
      {
        LastWriteWins(ds, buf, ws, i);
      }
    } else {
      var i :| 0 <= i < |ds| - 1 && ds[i].count < Width(ds[i]);
      assert ds[i] in ds && ds[i + 1] in ds;
      var regs: seq<Word> := seq(Width(ds[i]), _ => 0x4141);
      RoomForAll(ds);
      ValueOfEncodes(ds[i], regs);
      ShortSlotBreaks(ds, seq(Total(ds) + 4, _ => 0), regs, Write(i, ValueOf(ds[i], regs)));
    }
  }

  /** A count below the width of the type passes the static assertions, and a write then runs
      into the neighbour's slot. */
  lemma ShortCountClobbers()
    ensures
      var ds := [Descriptor(UInt32, 0, 1, ABCD), Descriptor(UInt16, 1, 1, ABCD)];
      && NoOverlaps(ds) && SlotFits(ds, [7, 7], 0) && SlotFits(ds, EncodeAt(ds, [7, 7], 0, VUInt32(0)), 1)
      && DecodeAt(ds, EncodeAt(ds, [7, 7], 0, VUInt32(0)), 1) == VUInt16(0)
  {
    var ds := [Descriptor(UInt32, 0, 1, ABCD), Descriptor(UInt16, 1, 1, ABCD)];
    NoOverlapsIsPairwise(ds);
    assert Offset(ds, 1) == 1;
    assert BigEndian(2, 0) == [0, 0];
    assert BigEndian(4, 0) == [0, 0, 0, 0];
    assert UnpackWords([0, 0]) == [0];
    assert [0, 0, 0, 0][2..] == [0, 0];
    assert EncodeRegs(2, ABCD, 0) == [0, 0];
  }
}
