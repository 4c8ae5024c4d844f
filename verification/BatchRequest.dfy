/** Aggregated reads: merging of contiguous ranges, and the wire format of a batch. */
module BatchRequests {
  import opened Bytes

  const UINT16: Byte := 0

  /** `typeCode` and `order` are the enumerators' values; deserialising casts any byte. */
  datatype BatchItem = BatchItem(start: Word, count: Word, typeCode: Byte, order: Byte)

  // ---- meaning -------------------------------------------------------------------

  predicate Covers(x: BatchItem, a: int) { x.start <= a < x.start + x.count }

  /** Some item of byte order `order` reads address `a`. */
  predicate Covered(items: seq<BatchItem>, order: Byte, a: int)
  {
    exists x :: x in items && x.order == order && Covers(x, a)
  }

  /** The range ends below the top of the address space, so its end fits 16 bits. */
  predicate NoWrap(x: BatchItem) { x.start + x.count < 0x1_0000 }

  /** The range runs up to the last address, so its 16-bit end is 0. */
  predicate ReachesTop(x: BatchItem) { x.start + x.count == 0x1_0000 }

  predicate Sorted(items: seq<BatchItem>)
  {
    forall i, j :: 0 <= i < j < |items| ==> items[i].start <= items[j].start
  }

  /** What `std::sort` may return: it is not stable, so equal starts come in any order. */
  predicate IsSort(sorted: seq<BatchItem>, items: seq<BatchItem>)
  {
    Sorted(sorted) && multiset(sorted) == multiset(items)
  }

  // ---- the optimiser -----------------------------------------------------------------

  function End16(x: BatchItem): Word { ToWord(x.start + x.count) }

  predicate Mergeable(last: BatchItem, curr: BatchItem)
  {
    curr.start <= End16(last) && last.order == curr.order
  }

  function Merge(last: BatchItem, curr: BatchItem): BatchItem
  {
    var newEnd := if End16(last) < End16(curr) then End16(curr) else End16(last);
    last.(count := ToWord(newEnd - last.start), typeCode := UINT16)
  }

  function MergeFrom(last: BatchItem, rest: seq<BatchItem>): (r: seq<BatchItem>)
    ensures r != [] && r[0].start == last.start && r[0].order == last.order
    decreases rest
  {
    if rest == [] then [last]
    else if Mergeable(last, rest[0]) then MergeFrom(Merge(last, rest[0]), rest[1..])
    else [last] + MergeFrom(rest[0], rest[1..])
  }

  /** The result so far, whose last range may still grow. */
  function Continue(done: seq<BatchItem>, rest: seq<BatchItem>): seq<BatchItem>
    requires done != []
  {
    done[..|done| - 1] + MergeFrom(done[|done| - 1], rest)
  }

  lemma ContinueStep(done: seq<BatchItem>, curr: BatchItem, rest: seq<BatchItem>, tail: seq<BatchItem>)
    requires done != [] && rest != [] && curr == rest[0] && tail == rest[1..]
    ensures
      var last := done[|done| - 1];
      var next := if Mergeable(last, curr) then done[|done| - 1 := Merge(last, curr)] else done + [curr];
      Continue(done, rest) == Continue(next, tail)
  {
    var n := |done| - 1;
    if Mergeable(done[n], curr) {
      assert done[n := Merge(done[n], curr)][..n] == done[..n];
    } else {
      assert (done + [curr])[..n + 1] == done[..n] + [done[n]];
      Concat(done[..n], [done[n]], MergeFrom(curr, tail));
    }
  }

  /** The optimised batch, given what the sort returned. */
  function Optimize(items: seq<BatchItem>, sorted: seq<BatchItem>): seq<BatchItem>
    requires |sorted| == |items|
  {
    if |items| <= 1 then items else MergeFrom(sorted[0], sorted[1..])
  }

  function Sum(items: seq<BatchItem>): nat
  {
    if items == [] then 0 else items[0].count + Sum(items[1..])
  }

  // ---- wire format -----------------------------------------------------------------------

  function EncodeItem(x: BatchItem): (bs: seq<Byte>)
    ensures |bs| == 6 && DecodeItem(bs) == x
  {
    WordBytes(x.start) + WordBytes(x.count) + [x.typeCode, x.order]
  }

  function DecodeItem(bs: seq<Byte>): BatchItem
    requires |bs| >= 6
  {
    BatchItem(Join(bs[0], bs[1]), Join(bs[2], bs[3]), bs[4], bs[5])
  }

  function EncodeItems(items: seq<BatchItem>): (bs: seq<Byte>)
    ensures |bs| == 6 * |items|
  {
    if items == [] then [] else EncodeItem(items[0]) + EncodeItems(items[1..])
  }

  function DecodeItems(n: nat, bs: seq<Byte>): (items: seq<BatchItem>)
    requires |bs| >= 6 * n
    ensures |items| == n
    decreases n
  {
    if n == 0 then [] else [DecodeItem(bs)] + DecodeItems(n - 1, bs[6..])
  }

  function EncodeRequest(items: seq<BatchItem>): seq<Byte>
  {
    WordBytes(ToWord(|items|)) + EncodeItems(items)
  }

  function DecodeRequest(data: seq<Byte>): Result<seq<BatchItem>>
  {
    if |data| < 2 || |data| < 2 + 6 * Join(data[0], data[1]) then Err(DESERIALIZATION_FAILED)
    else Ok(DecodeItems(Join(data[0], data[1]), data[2..]))
  }

  // ---- the class -------------------------------------------------------------------------

  class BatchRequest {
    var items: seq<BatchItem>

    constructor (items: seq<BatchItem>)
      ensures this.items == items
    {
      this.items := items;
    }

    method Add(start: Word, count: Word, typeCode: Byte, order: Byte)
      modifies this
      ensures items == old(items) + [BatchItem(start, count, typeCode, order)]
    {
      items := items + [BatchItem(start, count, typeCode, order)];
    }

    /** `sorted` is the copy of the items after `std::sort`. */
    method Optimized(sorted: seq<BatchItem>) returns (result: BatchRequest)
      requires IsSort(sorted, items)
      ensures fresh(result) && |sorted| == |items| && result.items == Optimize(items, sorted)
    {
      SortLength(sorted, items);
      if |items| <= 1 {
        result := new BatchRequest(items);
        return;
      }
      result := new BatchRequest([sorted[0]]);
      ghost var target := MergeFrom(sorted[0], sorted[1..]);
      for i := 1 to |sorted|
        invariant fresh(result) && result.items != []
        invariant Continue(result.items, sorted[i..]) == target
      {
        var n := |result.items| - 1;
        var last, curr := result.items[n], sorted[i];
        assert sorted[i..][1..] == sorted[i + 1..];
        ContinueStep(result.items, curr, sorted[i..], sorted[i + 1..]);
        var lastEnd := ToWord(last.start + last.count);
        if curr.start <= lastEnd && last.order == curr.order {
          last := Grow(last, lastEnd, curr);
          result.items := result.items[n := last];
        } else {
          result.items := result.items + [curr];
        }
      }
      assert sorted[|sorted|..] == [];
      assert result.items == result.items[..|result.items| - 1] + [result.items[|result.items| - 1]];
    }

    /** The merge of two ranges: the later end, and no specific type any more. */
    static method Grow(last: BatchItem, lastEnd: Word, curr: BatchItem) returns (merged: BatchItem)
      requires lastEnd == End16(last)
      ensures merged == Merge(last, curr)
    {
      var currEnd := ToWord(curr.start + curr.count);
      var newEnd := if lastEnd < currEnd then currEnd else lastEnd;
      merged := last.(count := ToWord(newEnd - last.start), typeCode := UINT16);
    }

    /** The running total is a 16-bit variable. */
    method TotalRegisters() returns (total: Word)
      ensures total == ToWord(Sum(items))
    {
      total := 0;
      for i := 0 to |items|
        invariant total == ToWord(Sum(items[..i]))
      {
        assert items[..i + 1] == items[..i] + [items[i]];
        SumAppend(items[..i], items[i]);
        total := ToWord(total + items[i].count);
      }
      assert items[..|items|] == items;
    }

    method Serialize() returns (out: seq<Byte>)
      ensures out == EncodeRequest(items)
    {
      var n := ToWord(|items|);
      out := PushWord([], n);
      for i := 0 to |items|
        invariant out == WordBytes(n) + EncodeItems(items[..i])
      {
        var item := items[i];
        ghost var before := out;
        out := PushWord(out, item.start);
        out := PushWord(out, item.count);
        out := out + [item.typeCode];
        out := out + [item.order];
        assert out == before + EncodeItem(item);
        assert items[..i + 1] == items[..i] + [item];
        EncodeItemsAppend(items[..i], item);
        Concat(WordBytes(n), EncodeItems(items[..i]), EncodeItem(item));
      }
      assert items[..|items|] == items;
    }

    /** The items of the request to be built from `data`. */
    static method Deserialize(data: seq<Byte>) returns (r: Result<seq<BatchItem>>)
      ensures r == DecodeRequest(data)
    {
      if |data| < 2 {
        return Err(DESERIALIZATION_FAILED);
      }
      var itemCount: nat := Join(data[0], data[1]);
      if |data| < 2 + itemCount * 6 {
        return Err(DESERIALIZATION_FAILED);
      }
      var items: seq<BatchItem> := [];
      var offset: nat := 2;
      for i := 0 to itemCount
        invariant offset == 2 + 6 * i
        invariant items + DecodeItems(itemCount - i, data[offset..]) == DecodeItems(itemCount, data[2..])
      {
        ghost var rest := data[offset..];
        var start := Join(data[offset], data[offset + 1]);
        offset := offset + 2;
        var count := Join(data[offset], data[offset + 1]);
        offset := offset + 2;
        var typeCode, order := data[offset], data[offset + 1];
        offset := offset + 2;
        assert rest[6..] == data[offset..];
        Concat(items, [DecodeItem(rest)], DecodeItems(itemCount - i - 1, rest[6..]));
        items := items + [BatchItem(start, count, typeCode, order)];
      }
      assert items + [] == items;
      r := Ok(items);
    }
  }

  lemma SortLength(sorted: seq<BatchItem>, items: seq<BatchItem>)
    requires IsSort(sorted, items)
    ensures |sorted| == |items|
  {
    assert |multiset(sorted)| == |multiset(items)|;
  }

  lemma {:induction false} SumAppend(items: seq<BatchItem>, x: BatchItem)
    ensures Sum(items + [x]) == Sum(items) + x.count
  {
    if items == [] {
      assert [x][1..] == [];
    } else {
      assert (items + [x])[1..] == items[1..] + [x];
      SumAppend(items[1..], x);
    }
  }

  lemma {:induction false} Insert(x: BatchItem, s: seq<BatchItem>) returns (r: seq<BatchItem>)
    requires Sorted(s)
    ensures Sorted(r) && multiset(r) == multiset{x} + multiset(s) && |r| == |s| + 1
    ensures forall y | y in r :: y == x || y in s
  {
    if s == [] || x.start <= s[0].start {
      r := [x] + s;
    } else {
      assert s == [s[0]] + s[1..];
      assert forall i | 0 <= i < |s[1..]| :: s[1..][i] == s[i + 1];
      var rest := Insert(x, s[1..]);
      r := [s[0]] + rest;
      forall i, j | 0 <= i < j < |r|
        ensures r[i].start <= r[j].start
      {
        assert r[j] == rest[j - 1] && rest[j - 1] in rest;
      }
    }
  }

  /** There is always something for the sort to return. */
  lemma {:induction false} SortExists(items: seq<BatchItem>) returns (sorted: seq<BatchItem>)
    ensures IsSort(sorted, items)
  {
    sorted := [];
    if items != [] {
      assert items == [items[0]] + items[1..];
      var rest := SortExists(items[1..]);
      sorted := Insert(items[0], rest);
    }
  }

  // ---- round trip of the wire format ---------------------------------------------------

  lemma {:induction false} EncodeItemsAppend(items: seq<BatchItem>, x: BatchItem)
    ensures EncodeItems(items + [x]) == EncodeItems(items) + EncodeItem(x)
  {
    if items == [] {
      assert [x][1..] == [];
      assert EncodeItems([x]) == EncodeItem(x) + [];
    } else {
      assert (items + [x])[1..] == items[1..] + [x];
      EncodeItemsAppend(items[1..], x);
      Concat(EncodeItem(items[0]), EncodeItems(items[1..]), EncodeItem(x));
    }
  }

  lemma {:induction false} DecodeEncodedItems(items: seq<BatchItem>, tail: seq<Byte>)
    ensures DecodeItems(|items|, EncodeItems(items) + tail) == items
    decreases items
  {
    if items != [] {
      var x, rest := EncodeItem(items[0]), EncodeItems(items[1..]);
      Concat(x, rest, tail);
      assert forall i | 0 <= i < 6 :: (x + (rest + tail))[i] == x[i];
      assert (x + (rest + tail))[6..] == rest + tail;
      DecodeEncodedItems(items[1..], tail);
    }
  }

  /** Exactly the batches of at most 65535 items survive; a cut one is rejected. */
  lemma RequestRoundTripIff(items: seq<BatchItem>, tail: seq<Byte>)
    ensures DecodeRequest(EncodeRequest(items) + tail) == Ok(items) <==> |items| < 0x1_0000
  {
    var n := ToWord(|items|);
    Concat(WordBytes(n), EncodeItems(items), tail);
    assert (WordBytes(n) + (EncodeItems(items) + tail))[2..] == EncodeItems(items) + tail;
    if |items| < 0x1_0000 {
      DecodeEncodedItems(items, tail);
    }
  }

  lemma CutRequestRejected(items: seq<BatchItem>, k: nat)
    requires |items| < 0x1_0000 && k < |EncodeRequest(items)|
    ensures DecodeRequest(EncodeRequest(items)[..k]) == Err(DESERIALIZATION_FAILED)
  {
    if k >= 2 {
      var data := EncodeRequest(items)[..k];
      assert data[0] == WordBytes(|items|)[0] && data[1] == WordBytes(|items|)[1];
    }
  }
}
