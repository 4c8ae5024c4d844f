/** The result of a batch read, and its nested wire format. */
module BatchResponses {
  import opened Bytes

  /** `status` is the integer value of the item's error code, 0 for success. */
  datatype ItemResult = ItemResult(address: Word, registers: seq<Word>, status: int)

  /** What the wire format can carry. */
  predicate FitsItem(r: ItemResult)
  {
    |r.registers| < 0x1_0000 && 0 <= r.status < 0x100
  }

  predicate Fits(rs: seq<ItemResult>)
  {
    |rs| < 0x1_0000 && forall r | r in rs :: FitsItem(r)
  }

  // ---- wire format ------------------------------------------------------------

  function ItemHeader(r: ItemResult): (bs: seq<Byte>)
    ensures |bs| == 5
    ensures Join(bs[0], bs[1]) == r.address && bs[2] == ToByte(r.status)
    ensures Join(bs[3], bs[4]) == ToWord(|r.registers|)
  {
    WordBytes(r.address) + [ToByte(r.status)] + WordBytes(ToWord(|r.registers|))
  }

  function EncodeItem(r: ItemResult): (bs: seq<Byte>)
    ensures |bs| == 5 + 2 * |r.registers|
  {
    ItemHeader(r) + PackWords(r.registers)
  }

  function EncodeItems(rs: seq<ItemResult>): seq<Byte>
  {
    if rs == [] then [] else EncodeItem(rs[0]) + EncodeItems(rs[1..])
  }

  function EncodeResponse(rs: seq<ItemResult>): seq<Byte>
  {
    WordBytes(ToWord(|rs|)) + EncodeItems(rs)
  }

  function Prepend(xs: seq<ItemResult>, r: Result<seq<ItemResult>>): Result<seq<ItemResult>>
  {
    match r
    case Ok(ys) => Ok(xs + ys)
    case Err(e) => Err(e)
  }

  function ItemSize(data: seq<Byte>): nat
    requires |data| >= 5
  {
    5 + 2 * Join(data[3], data[4])
  }

  function DecodeItem(data: seq<Byte>): (r: ItemResult)
    requires |data| >= 5 && |data| >= ItemSize(data)
    ensures |r.registers| == Join(data[3], data[4])
  {
    ItemResult(Join(data[0], data[1]), UnpackWords(data[5..ItemSize(data)]), data[2])
  }

  /** `n` items from the front of `data`; what follows them is left alone. */
  function DecodeItems(n: nat, data: seq<Byte>): Result<seq<ItemResult>>
    decreases n
  {
    if n == 0 then Ok([])
    else if |data| < 5 || |data| < ItemSize(data) then Err(DESERIALIZATION_FAILED)
    else Prepend([DecodeItem(data)], DecodeItems(n - 1, data[ItemSize(data)..]))
  }

  function DecodeResponse(data: seq<Byte>): Result<seq<ItemResult>>
  {
    if |data| < 2 then Err(DESERIALIZATION_FAILED)
    else DecodeItems(Join(data[0], data[1]), data[2..])
  }

  // ---- the class ----------------------------------------------------------------

  class BatchResponse {
    var results: seq<ItemResult>

    constructor ()
      ensures results == []
    {
      results := [];
    }

    method AddResult(address: Word, registers: seq<Word>, status: int)
      modifies this
      ensures results == old(results) + [ItemResult(address, registers, status)]
    {
      results := results + [ItemResult(address, registers, status)];
    }

    method Serialize() returns (out: seq<Byte>)
      ensures out == EncodeResponse(results)
    {
      out := PushWord([], ToWord(|results|));
      for i := 0 to |results|
        invariant out == WordBytes(ToWord(|results|)) + EncodeItems(results[..i])
      {
        var item := results[i];
        ghost var before := out;
        out := PushWord(out, item.address);
        out := out + [ToByte(item.status)];
        out := PushWord(out, ToWord(|item.registers|));
        ghost var header := ItemHeader(item);
        assert out == before + header;
        for k := 0 to |item.registers|
          invariant out == before + (header + PackWords(item.registers[..k]))
        {
          PackPrefix(item.registers, k);
          out := PushWord(out, item.registers[k]);
        }
        assert item.registers[..|item.registers|] == item.registers;
        EncodeItemsPrefix(results, i);
        Concat(WordBytes(ToWord(|results|)), EncodeItems(results[..i]), EncodeItem(item));
      }
      assert results[..|results|] == results;
    }

    /** The inner loop of `deserialize`. */
    static method ReadRegisters(data: seq<Byte>, start: nat, count: nat) returns (regs: seq<Word>)
      requires start + 2 * count <= |data|
      ensures regs == UnpackWords(data[start..start + 2 * count])
    {
      regs := [];
      var offset := start;
      ghost var packed := data[start..start + 2 * count];
      for r := 0 to count
        invariant offset == start + 2 * r
        invariant regs == UnpackWords(packed[..2 * r])
      {
        regs := regs + [Join(data[offset], data[offset + 1])];
        UnpackPrefix(packed, 2 * r);
        offset := offset + 2;
      }
      assert packed[..2 * count] == packed;
    }

    /** The items of the response to be built from `data`. */
    static method Deserialize(data: seq<Byte>) returns (r: Result<seq<ItemResult>>)
      ensures r == DecodeResponse(data)
    {
      if |data| < 2 {
        return Err(DESERIALIZATION_FAILED);
      }
      var itemCount: nat := Join(data[0], data[1]);
      var items: seq<ItemResult> := [];
      var offset: nat := 2;
      ghost var whole := DecodeItems(itemCount, data[2..]);
      PrependNothing(whole);
      for i := 0 to itemCount
        invariant 2 <= offset <= |data|
        invariant whole == Prepend(items, DecodeItems(itemCount - i, data[offset..]))
      {
        if offset + 5 > |data| {
          return Err(DESERIALIZATION_FAILED);
        }
        ghost var rest := data[offset..];
        ghost var start := offset;
        var addr := Join(data[offset], data[offset + 1]);
        offset := offset + 2;
        var status := data[offset];
        offset := offset + 1;
        var regCount: nat := Join(data[offset], data[offset + 1]);
        offset := offset + 2;
        assert |rest| >= 5 && ItemSize(rest) == 5 + 2 * regCount;
        if offset + regCount * 2 > |data| {
          return Err(DESERIALIZATION_FAILED);
        }
        var regs := ReadRegisters(data, offset, regCount);
        offset := offset + 2 * regCount;
        assert data[start + 5..offset] == rest[5..ItemSize(rest)];
        assert data[offset..] == rest[ItemSize(rest)..];
        DecodeStep(itemCount - i, items, rest, data[offset..]);
        items := items + [ItemResult(addr, regs, status)];
      }
      assert items + [] == items;
      r := Ok(items);
    }
  }

  // ---- lemmas -------------------------------------------------------------------

  lemma PrependNothing(r: Result<seq<ItemResult>>)
    ensures Prepend([], r) == r
  {
    if r.Ok? {
      assert [] + r.value == r.value;
    }
  }

  lemma PrependPrepend(xs: seq<ItemResult>, ys: seq<ItemResult>, r: Result<seq<ItemResult>>)
    ensures Prepend(xs, Prepend(ys, r)) == Prepend(xs + ys, r)
  {
    if r.Ok? {
      Concat(xs, ys, r.value);
    }
  }

  /** One step of the loop that reads the items. */
  lemma DecodeStep(n: nat, items: seq<ItemResult>, data: seq<Byte>, rest: seq<Byte>)
    requires n > 0 && |data| >= 5 && |data| >= ItemSize(data) && rest == data[ItemSize(data)..]
    ensures Prepend(items, DecodeItems(n, data)) == Prepend(items + [DecodeItem(data)], DecodeItems(n - 1, rest))
  {
    PrependPrepend(items, [DecodeItem(data)], DecodeItems(n - 1, rest));
  }

  lemma {:induction false} EncodeItemsAppend(rs: seq<ItemResult>, r: ItemResult)
    ensures EncodeItems(rs + [r]) == EncodeItems(rs) + EncodeItem(r)
  {
    if rs == [] {
      assert [r][1..] == [];
      assert EncodeItems([r]) == EncodeItem(r) + [];
    } else {
      assert (rs + [r])[1..] == rs[1..] + [r];
      EncodeItemsAppend(rs[1..], r);
      Concat(EncodeItem(rs[0]), EncodeItems(rs[1..]), EncodeItem(r));
    }
  }

  /** One step of the loop that writes the items. */
  lemma EncodeItemsPrefix(rs: seq<ItemResult>, k: nat)
    requires k < |rs|
    ensures EncodeItems(rs[..k + 1]) == EncodeItems(rs[..k]) + EncodeItem(rs[k])
  {
    assert rs[..k + 1] == rs[..k] + [rs[k]];
    EncodeItemsAppend(rs[..k], rs[k]);
  }

  /** A header in front of anything is read back field by field. */
  lemma HeaderRead(r: ItemResult, rest: seq<Byte>)
    requires FitsItem(r)
    ensures
      var data := ItemHeader(r) + rest;
      && data[5..] == rest && Join(data[0], data[1]) == r.address && data[2] == r.status
      && ItemSize(data) == 5 + 2 * |r.registers|
  {
    var h := ItemHeader(r);
    assert (h + rest)[3] == h[3] && (h + rest)[4] == h[4];
  }

  lemma DecodeEncodedItem(r: ItemResult, tail: seq<Byte>)
    requires FitsItem(r)
    ensures
      var data := EncodeItem(r) + tail;
      && ItemSize(data) == |EncodeItem(r)| && DecodeItem(data) == r
      && data[ItemSize(data)..] == tail
  {
    var regs := PackWords(r.registers);
    HeaderRead(r, regs + tail);
    Concat(ItemHeader(r), regs, tail);
    var data := EncodeItem(r) + tail;
    assert data[5..ItemSize(data)] == data[5..][..|regs|] == regs;
    UnpackPack(r.registers);
  }

  lemma {:induction false} DecodeEncodedItems(rs: seq<ItemResult>, tail: seq<Byte>)
    requires forall r | r in rs :: FitsItem(r)
    ensures DecodeItems(|rs|, EncodeItems(rs) + tail) == Ok(rs)
    decreases rs
  {
    if rs != [] {
      var rest := EncodeItems(rs[1..]) + tail;
      Concat(EncodeItem(rs[0]), EncodeItems(rs[1..]), tail);
      DecodeEncodedItem(rs[0], rest);
      DecodeEncodedItems(rs[1..], tail);
      assert [rs[0]] + rs[1..] == rs;
    }
  }

  /** Whatever decodes is within the limits of the format. */
  lemma {:induction false} DecodedItemsFit(n: nat, data: seq<Byte>)
    requires DecodeItems(n, data).Ok?
    ensures |DecodeItems(n, data).value| == n
    ensures forall r | r in DecodeItems(n, data).value :: FitsItem(r)
    decreases n
  {
    if n > 0 {
      DecodedItemsFit(n - 1, data[ItemSize(data)..]);
    }
  }

  /** Exactly the responses within the limits survive, and trailing bytes do not matter. */
  lemma ResponseRoundTripIff(rs: seq<ItemResult>, tail: seq<Byte>)
    ensures DecodeResponse(EncodeResponse(rs) + tail) == Ok(rs) <==> Fits(rs)
  {
    var rest := EncodeItems(rs) + tail;
    Concat(WordBytes(ToWord(|rs|)), EncodeItems(rs), tail);
    CountRead(ToWord(|rs|), rest);
    if Fits(rs) {
      DecodeEncodedItems(rs, tail);
    } else if DecodeItems(ToWord(|rs|), rest) == Ok(rs) {
      DecodedItemsFit(ToWord(|rs|), rest);
    }
  }

  /** A cut behind the header of the first item. */
  lemma CutBehindHeader(rs: seq<ItemResult>, k: nat)
    requires rs != [] && FitsItem(rs[0]) && 5 <= k <= |EncodeItems(rs)|
    ensures ItemSize(EncodeItems(rs)[..k]) == |EncodeItem(rs[0])|
    ensures k >= |EncodeItem(rs[0])| ==>
      EncodeItems(rs)[..k][|EncodeItem(rs[0])|..] == EncodeItems(rs[1..])[..k - |EncodeItem(rs[0])|]
  {
    var rest := PackWords(rs[0].registers) + EncodeItems(rs[1..]);
    Concat(ItemHeader(rs[0]), PackWords(rs[0].registers), EncodeItems(rs[1..]));
    HeaderRead(rs[0], rest);
    assert EncodeItems(rs)[..k][3] == EncodeItems(rs)[3] && EncodeItems(rs)[..k][4] == EncodeItems(rs)[4];
  }

  lemma {:induction false} CutItemsRejected(rs: seq<ItemResult>, k: nat)
    requires (forall r | r in rs :: FitsItem(r)) && k < |EncodeItems(rs)|
    ensures DecodeItems(|rs|, EncodeItems(rs)[..k]) == Err(DESERIALIZATION_FAILED)
    decreases rs
  {
    if k >= 5 {
      var size := |EncodeItem(rs[0])|;
      CutBehindHeader(rs, k);
      if k >= size {
        CutItemsRejected(rs[1..], k - size);
      }
    }
  }

  /** A response cut anywhere, in the middle of an item or between two, is rejected. */
  lemma CutResponseRejected(rs: seq<ItemResult>, k: nat)
    requires Fits(rs) && k < |EncodeResponse(rs)|
    ensures DecodeResponse(EncodeResponse(rs)[..k]) == Err(DESERIALIZATION_FAILED)
  {
    if k >= 2 {
      var rest := EncodeItems(rs)[..k - 2];
      assert EncodeResponse(rs)[..k] == WordBytes(ToWord(|rs|)) + rest;
      CountRead(ToWord(|rs|), rest);
      CutItemsRejected(rs, k - 2);
    }
  }

  lemma CountRead(n: Word, rest: seq<Byte>)
    ensures DecodeResponse(WordBytes(n) + rest) == DecodeItems(n, rest)
  {
    assert (WordBytes(n) + rest)[2..] == rest;
  }
}
