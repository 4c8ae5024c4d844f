/** Batches of several byte orders: when the optimiser's result is still the shortest. */
module BatchOrders {
  import opened Bytes
  import opened BatchRequests
  import opened BatchOptimizer

  function End(x: BatchItem): int { x.start + x.count }

  // ---- the condition -------------------------------------------------------------

  /** Item `k` starts inside or against item `j`, of the same byte order. */
  predicate Touches(items: seq<BatchItem>, j: nat, k: nat)
    requires j < |items| && k < |items|
  {
    items[j].order == items[k].order && items[k].start <= End(items[j])
  }

  /** Whatever touches an earlier item of its own byte order directly follows one. */
  predicate Grouped(items: seq<BatchItem>)
  {
    forall j, k | 0 <= j < k < |items| :: Touches(items, j, k) ==> items[k - 1].order == items[k].order
  }

  /** Whatever in `rest`, which follows `prev`, touches `z` follows one of its own byte order. */
  predicate Calm(z: BatchItem, prev: BatchItem, rest: seq<BatchItem>)
    decreases rest
  {
    rest == [] ||
    (&& (rest[0].order == z.order && rest[0].start <= End(z) ==> prev.order == rest[0].order)
     && Calm(z, rest[0], rest[1..]))
  }

  /** The same condition, item by item. */
  predicate AllCalm(items: seq<BatchItem>)
    decreases items
  {
    items == [] || (Calm(items[0], items[0], items[1..]) && AllCalm(items[1..]))
  }

  predicate CalmAt(z: BatchItem, prev: BatchItem, rest: seq<BatchItem>, k: nat)
    requires k < |rest|
  {
    rest[k].order == z.order && rest[k].start <= End(z)
    ==> (if k == 0 then prev else rest[k - 1]).order == rest[k].order
  }

  lemma {:induction false} CalmIs(z: BatchItem, prev: BatchItem, rest: seq<BatchItem>)
    ensures Calm(z, prev, rest) <==> forall k | 0 <= k < |rest| :: CalmAt(z, prev, rest, k)
    decreases rest
  {
    if rest != [] {
      var tail := rest[1..];
      CalmIs(z, rest[0], tail);
      assert forall k | 0 <= k < |tail| :: CalmAt(z, rest[0], tail, k) == CalmAt(z, prev, rest, k + 1);
      if Calm(z, prev, rest) {
        forall k | 0 <= k < |rest|
          ensures CalmAt(z, prev, rest, k)
        {
          assert k > 0 ==> CalmAt(z, rest[0], tail, k - 1);
        }
      }
      if forall k | 0 <= k < |rest| :: CalmAt(z, prev, rest, k) {
        assert CalmAt(z, prev, rest, 0);
      }
    }
  }

  lemma {:induction false} AllCalmIsGrouped(items: seq<BatchItem>)
    ensures AllCalm(items) <==> Grouped(items)
    decreases items
  {
    if items != [] {
      var rest := items[1..];
      AllCalmIsGrouped(rest);
      CalmIs(items[0], items[0], rest);
      assert forall k | 1 <= k < |items| :: rest[k - 1] == items[k];
      if Grouped(items) {
        forall k | 0 <= k < |rest|
          ensures CalmAt(items[0], items[0], rest, k)
        {
          assert Touches(items, 0, k + 1) ==> items[k].order == items[k + 1].order;
        }
        forall j, k | 0 <= j < k < |rest| && Touches(rest, j, k)
          ensures rest[k - 1].order == rest[k].order
        {
          assert Touches(items, j + 1, k + 1);
        }
      }
      if AllCalm(items) {
        forall j, k | 0 <= j < k < |items| && Touches(items, j, k)
          ensures items[k - 1].order == items[k].order
        {
          if j > 0 {
            assert Touches(rest, j - 1, k - 1);
          } else {
            assert CalmAt(items[0], items[0], rest, k - 1);
          }
        }
      }
    }
  }

  // ---- what the merge makes of it ------------------------------------------------------

  /** Every range of `z`'s byte order starts beyond the end of `z`. */
  predicate Beyond(z: BatchItem, rs: seq<BatchItem>)
  {
    forall r | r in rs :: r.order == z.order ==> r.start > End(z)
  }

  lemma BeyondCons(z: BatchItem, x: BatchItem, rs: seq<BatchItem>)
    ensures Beyond(z, [x] + rs) <==> (x.order == z.order ==> x.start > End(z)) && Beyond(z, rs)
  {
    assert forall r :: r in [x] + rs <==> r == x || r in rs;
  }

  /** The first item of `rest` extends a range that starts like `last`, or a new one starts. */
  lemma {:induction false} MergeBeyond(z: BatchItem, last: BatchItem, rest: seq<BatchItem>)
    requires SortedFrom(last.start, rest) && NoWrap(last) && AllNoWrap(rest)
    ensures Beyond(z, MergeFrom(last, rest))
       <==> (last.order == z.order ==> last.start > End(z)) && Calm(z, last, rest)
    decreases rest
  {
    if rest == [] {
      BeyondCons(z, last, []);
      assert [last] + [] == [last];
    } else {
      var curr, tail := rest[0], rest[1..];
      HeadTail(rest);
      if Mergeable(last, curr) {
        MergeFacts(last, curr);
        var m := Merge(last, curr);
        MergeBeyond(z, m, tail);
        CalmFrom(z, m, curr, tail);
      } else {
        MergeBeyond(z, curr, tail);
        BeyondCons(z, last, MergeFrom(curr, tail));
      }
    }
  }

  lemma CalmFrom(z: BatchItem, p: BatchItem, q: BatchItem, rest: seq<BatchItem>)
    requires p.order == q.order
    ensures Calm(z, p, rest) == Calm(z, q, rest)
  {
  }

  /** A range that has grown to the later of two ends is touched by what touches either. */
  lemma {:induction false} CalmMerge(m: BatchItem, x: BatchItem, y: BatchItem, prev: BatchItem, rest: seq<BatchItem>)
    requires m.order == x.order == y.order && (End(m) == End(x) >= End(y) || End(m) == End(y) >= End(x))
    ensures Calm(m, prev, rest) <==> Calm(x, prev, rest) && Calm(y, prev, rest)
    decreases rest
  {
    if rest != [] {
      CalmMerge(m, x, y, rest[0], rest[1..]);
    }
  }

  lemma MergeEnd(last: BatchItem, curr: BatchItem)
    requires NoWrap(last) && NoWrap(curr) && last.start <= curr.start && Mergeable(last, curr)
    ensures End(Merge(last, curr)) == if End(last) < End(curr) then End(curr) else End(last)
  {
  }

  /** Ranges of the same byte order are in ascending order with gaps between them. */
  predicate Spaced(rs: seq<BatchItem>)
    decreases rs
  {
    rs == [] || (Beyond(rs[0], rs[1..]) && Spaced(rs[1..]))
  }

  lemma {:induction false} MergeSpaced(last: BatchItem, rest: seq<BatchItem>)
    requires SortedFrom(last.start, rest) && NoWrap(last) && AllNoWrap(rest)
    ensures Spaced(MergeFrom(last, rest)) <==> Calm(last, last, rest) && AllCalm(rest)
    decreases rest
  {
    if rest == [] {
      assert [last][1..] == [];
    } else {
      var curr, tail := rest[0], rest[1..];
      HeadTail(rest);
      if Mergeable(last, curr) {
        var m := Merge(last, curr);
        MergeFacts(last, curr);
        MergeEnd(last, curr);
        MergeSpaced(m, tail);
        CalmMerge(m, last, curr, curr, tail);
        CalmFrom(m, m, curr, tail);
      } else {
        MergeSpaced(curr, tail);
        MergeBeyond(last, curr, tail);
        assert ([last] + MergeFrom(curr, tail))[1..] == MergeFrom(curr, tail);
      }
    }
  }

  // ---- shortest ------------------------------------------------------------------------------

  /** Two lists read the same addresses with the same byte orders. */
  ghost predicate SameReads(p: seq<BatchItem>, q: seq<BatchItem>)
  {
    forall order: Byte :: SameCover(p, q, order)
  }

  /** No list that reads the same is shorter. */
  ghost predicate Shortest(rs: seq<BatchItem>)
  {
    forall others: seq<BatchItem> :: SameReads(rs, others) ==> |rs| <= |others|
  }

  function OrderedStarts(items: seq<BatchItem>): set<(Byte, int)> { set x | x in items :: (x.order, x.start as int) }

  lemma {:induction false} OrderedStartsAtMost(items: seq<BatchItem>)
    ensures |OrderedStarts(items)| <= |items|
  {
    if items != [] {
      OrderedStartsAtMost(items[1..]);
      HeadTail(items);
      assert OrderedStarts(items) == {(items[0].order, items[0].start as int)} + OrderedStarts(items[1..]);
    }
  }

  lemma {:induction false} OrderedStartsExactly(rs: seq<BatchItem>)
    requires Spaced(rs) && AllPositive(rs)
    ensures |OrderedStarts(rs)| == |rs|
    decreases rs
  {
    if rs != [] {
      OrderedStartsExactly(rs[1..]);
      HeadTail(rs);
      assert OrderedStarts(rs) == {(rs[0].order, rs[0].start as int)} + OrderedStarts(rs[1..]);
    }
  }

  lemma {:induction false} SpacedPair(rs: seq<BatchItem>, i: nat, j: nat)
    requires Spaced(rs) && i < j < |rs| && rs[i].order == rs[j].order
    ensures rs[j].start > End(rs[i])
    decreases rs
  {
    if i == 0 {
      assert rs[j] == rs[1..][j - 1] && rs[j] in rs[1..];
    } else {
      SpacedPair(rs[1..], i - 1, j - 1);
    }
  }

  /** Just before and just behind a range its byte order reads nothing. */
  lemma GapsAround(rs: seq<BatchItem>, r: BatchItem)
    requires Spaced(rs) && AllPositive(rs) && r in rs
    ensures !Covered(rs, r.order, r.start - 1) && !Covered(rs, r.order, End(r))
    ensures forall a | r.start <= a < End(r) :: Covered(rs, r.order, a)
  {
    var i :| 0 <= i < |rs| && rs[i] == r;
    forall x | x in rs && x.order == r.order
      ensures !Covers(x, r.start - 1) && !Covers(x, End(r))
    {
      var j :| 0 <= j < |rs| && rs[j] == x;
      if i < j {
        SpacedPair(rs, i, j);
      } else if j < i {
        SpacedPair(rs, j, i);
      }
    }
    assert forall a | r.start <= a < End(r) :: Covers(r, a);
  }

  lemma SpacedIsShortest(rs: seq<BatchItem>)
    requires Spaced(rs) && AllPositive(rs)
    ensures Shortest(rs)
  {
    forall others: seq<BatchItem> | SameReads(rs, others)
      ensures |rs| <= |others|
    {
      forall s | s in OrderedStarts(rs)
        ensures s in OrderedStarts(others)
      {
        var r :| r in rs && s == (r.order, r.start as int);
        GapsAround(rs, r);
        assert SameCover(rs, others, r.order);
        assert Covered(rs, r.order, r.start) && Covered(others, r.order, r.start);
        var x :| x in others && x.order == r.order && Covers(x, r.start);
        assert !Covers(x, r.start - 1);
      }
      OrderedStartsExactly(rs);
      OrderedStartsAtMost(others);
      SubsetCardinality(OrderedStarts(rs), OrderedStarts(others));
    }
  }

  /** Two ranges of one byte order that touch can be replaced by one. */
  lemma TouchingShortens(rs: seq<BatchItem>, i: nat, j: nat) returns (others: seq<BatchItem>)
    requires i < j < |rs| && rs[i].order == rs[j].order && rs[i].start <= rs[j].start <= End(rs[i])
    requires NoWrap(rs[i]) && NoWrap(rs[j])
    ensures SameReads(rs, others) && |others| == |rs| - 1
  {
    var x, y := rs[i], rs[j];
    var end := if End(x) < End(y) then End(y) else End(x);
    var m := x.(count := end - x.start);
    others := rs[..i] + [m] + rs[i + 1..j] + rs[j + 1..];
    forall order: Byte, a: int
      ensures Covered(rs, order, a) <==> Covered(others, order, a)
    {
      assert Covers(m, a) <==> Covers(x, a) || Covers(y, a);
      KeptMembers(rs, i, j, m, others);
      if Covered(rs, order, a) {
        var z :| z in rs && z.order == order && Covers(z, a);
        assert z in others || z == x || z == y;
        assert m in others;
      }
      if Covered(others, order, a) {
        var z :| z in others && z.order == order && Covers(z, a);
        assert z in rs || z == m;
        assert x in rs && y in rs;
      }
    }
    assert forall order: Byte :: SameCover(rs, others, order);
  }

  lemma KeptMembers(rs: seq<BatchItem>, i: nat, j: nat, m: BatchItem, others: seq<BatchItem>)
    requires i < j < |rs| && others == rs[..i] + [m] + rs[i + 1..j] + rs[j + 1..]
    ensures m in others && forall z | z in rs :: z in others || z == rs[i] || z == rs[j]
    ensures forall z | z in others :: z in rs || z == m
  {
    assert others[i] == m;
    forall z | z in rs
      ensures z in others || z == rs[i] || z == rs[j]
    {
      var k :| 0 <= k < |rs| && rs[k] == z;
      if k < i {
        assert others[k] == z;
      } else if i < k < j {
        assert others[k] == z;
      } else if k > j {
        assert others[k - 1] == z;
      }
    }
  }

  predicate Ascending(rs: seq<BatchItem>)
  {
    forall i, j | 0 <= i < j < |rs| :: rs[i].start <= rs[j].start
  }

  lemma {:induction false} NotSpacedTouches(rs: seq<BatchItem>) returns (i: nat, j: nat)
    requires !Spaced(rs)
    ensures i < j < |rs| && rs[i].order == rs[j].order && rs[j].start <= End(rs[i])
    decreases rs
  {
    if !Beyond(rs[0], rs[1..]) {
      var r :| r in rs[1..] && r.order == rs[0].order && r.start <= End(rs[0]);
      var k :| 0 <= k < |rs[1..]| && rs[1..][k] == r;
      i, j := 0, k + 1;
    } else {
      var a, b := NotSpacedTouches(rs[1..]);
      i, j := a + 1, b + 1;
    }
  }

  lemma {:induction false} MergeAscends(last: BatchItem, rest: seq<BatchItem>)
    requires SortedFrom(last.start, rest) && NoWrap(last) && AllNoWrap(rest)
    requires last.count > 0 && AllPositive(rest)
    ensures Ascending(MergeFrom(last, rest)) && AllPositive(MergeFrom(last, rest)) && AllNoWrap(MergeFrom(last, rest))
    ensures forall r | r in MergeFrom(last, rest) :: r.start >= last.start
    decreases rest
  {
    if rest != [] {
      var curr, tail := rest[0], rest[1..];
      HeadTail(rest);
      if Mergeable(last, curr) {
        MergeFacts(last, curr);
        MergeAscends(Merge(last, curr), tail);
      } else {
        MergeAscends(curr, tail);
      }
    }
  }

  lemma ResultShape(items: seq<BatchItem>, sorted: seq<BatchItem>)
    requires AllNoWrap(items) && AllPositive(items) && IsSort(sorted, items)
    ensures |sorted| == |items|
    ensures
      var rs := Optimize(items, sorted);
      Ascending(rs) && AllPositive(rs) && AllNoWrap(rs) && (Spaced(rs) <==> Grouped(sorted))
  {
    SortMembers(sorted, items);
    AllCalmIsGrouped(sorted);
    if |items| > 1 {
      HeadTail(sorted);
      SortedChain(sorted, sorted[0].start);
      MergeAscends(sorted[0], sorted[1..]);
      MergeSpaced(sorted[0], sorted[1..]);
    } else if |items| == 1 {
      assert items[1..] == [] && sorted[1..] == [];
    }
  }

  /** For batches of any byte orders: the optimised list is a shortest one that reads the same
      if and only if in the sorted batch whatever touches an earlier item of its own byte order
      directly follows one. */
  lemma ShortestIff(items: seq<BatchItem>, sorted: seq<BatchItem>)
    requires AllNoWrap(items) && AllPositive(items) && IsSort(sorted, items)
    ensures |sorted| == |items|
    ensures SameReads(items, Optimize(items, sorted))
    ensures Shortest(Optimize(items, sorted)) <==> Grouped(sorted)
  {
    ResultShape(items, sorted);
    var rs := Optimize(items, sorted);
    forall order: Byte, a: int
      ensures Covered(items, order, a) <==> Covered(rs, order, a)
    {
      CoverageUnchanged(items, sorted, order, a);
    }
    assert forall order: Byte :: SameCover(items, rs, order);
    if Grouped(sorted) {
      SpacedIsShortest(rs);
    } else {
      var i, j := NotSpacedTouches(rs);
      assert rs[i] in rs && rs[j] in rs;
      var others := TouchingShortens(rs, i, j);
    }
  }

  lemma OneOrderIsGrouped(sorted: seq<BatchItem>, order: Byte)
    requires AllOrder(sorted, order)
    ensures Grouped(sorted)
  {
  }

  /** In particular no list whatsoever that reads the same addresses as a batch of one byte order
      is shorter. */
  lemma Minimal(items: seq<BatchItem>, sorted: seq<BatchItem>, others: seq<BatchItem>, order: Byte)
    requires AllNoWrap(items) && AllPositive(items) && AllOrder(items, order) && IsSort(sorted, items)
    requires SameReads(items, others)
    ensures |sorted| == |items| && |Optimize(items, sorted)| <= |others|
  {
    SortMembers(sorted, items);
    OneOrderIsGrouped(sorted, order);
    ShortestIff(items, sorted);
    SameReadsTransitive(Optimize(items, sorted), items, others);
  }

  lemma SameReadsTransitive(p: seq<BatchItem>, q: seq<BatchItem>, r: seq<BatchItem>)
    requires SameReads(q, p) && SameReads(q, r)
    ensures SameReads(p, r)
  {
    forall order: Byte
      ensures SameCover(p, r, order)
    {
      assert SameCover(q, p, order) && SameCover(q, r, order);
    }
  }

  // ---- totals ---------------------------------------------------------------------------------

  /** The addresses read, each with the byte order it is read in. */
  function Reads(items: seq<BatchItem>): set<(int, int)>
  {
    set o: int, a: int | 0 <= o < 0x100 && 0 <= a < 0x1_0000 && Covered(items, o, a) :: (o, a)
  }

  function Tagged(order: int, addresses: set<int>): set<(int, int)> { set a | a in addresses :: (order, a) }

  lemma {:induction false} TaggedSize(order: int, lo: int, hi: int)
    requires lo <= hi
    ensures |Tagged(order, Interval(lo, hi))| == hi - lo
    decreases hi - lo
  {
    if lo < hi {
      TaggedSize(order, lo, hi - 1);
      assert Interval(lo, hi) == Interval(lo, hi - 1) + {hi - 1};
      assert Tagged(order, Interval(lo, hi)) == Tagged(order, Interval(lo, hi - 1)) + {(order, hi - 1)};
    }
  }

  lemma {:induction false} SpacedTotal(rs: seq<BatchItem>)
    requires Spaced(rs) && AllNoWrap(rs)
    ensures Sum(rs) == |Reads(rs)|
    decreases rs
  {
    if rs != [] {
      var x, rest := rs[0], rs[1..];
      HeadTail(rs);
      SpacedTotal(rest);
      var own := Interval(x.start, End(x));
      TaggedSize(x.order, x.start, End(x));
      assert NoWrap(x);
      forall o: int, a: int | 0 <= o < 0x100
        ensures Covered(rs, o, a) <==> Covered(rest, o, a) || (o == x.order && a in own)
        ensures !(Covered(rest, o, a) && o == x.order && a in own)
      {
        CoveredCons(x, rest, o, a);
      }
      assert Reads(rs) == Reads(rest) + Tagged(x.order, own);
      assert Reads(rest) !! Tagged(x.order, own);
    }
  }

  /** The total of the optimised batch is the number of distinct reads, modulo 65536. */
  lemma TotalIsDistinctReads(items: seq<BatchItem>, sorted: seq<BatchItem>)
    requires AllNoWrap(items) && AllPositive(items) && IsSort(sorted, items) && Grouped(sorted)
    ensures |sorted| == |items|
    ensures ToWord(Sum(Optimize(items, sorted))) == ToWord(|Reads(items)|)
  {
    ResultShape(items, sorted);
    var rs := Optimize(items, sorted);
    SpacedTotal(rs);
    forall o: int, a: int | 0 <= o < 0x100
      ensures Covered(rs, o, a) <==> Covered(items, o, a)
    {
      CoverageUnchanged(items, sorted, o, a);
    }
    assert Reads(rs) == Reads(items);
  }

  // ---- canonical -------------------------------------------------------------------------------

  /** A range of `p` is found in `q`, up to the register type. */
  predicate HasRange(q: seq<BatchItem>, r: BatchItem)
  {
    exists x :: x in q && x.order == r.order && x.start == r.start && x.count == r.count
  }

  lemma SpacedSameRange(p: seq<BatchItem>, q: seq<BatchItem>, r: BatchItem)
    requires Spaced(p) && AllPositive(p) && Spaced(q) && AllPositive(q) && SameReads(p, q) && r in p
    ensures HasRange(q, r)
  {
    GapsAround(p, r);
    assert SameCover(p, q, r.order);
    assert Covered(p, r.order, r.start) && Covered(q, r.order, r.start);
    var x :| x in q && x.order == r.order && Covers(x, r.start);
    GapsAround(q, x);
    assert !Covered(q, x.order, x.start - 1) && !Covered(q, x.order, End(x));
    assert !Covered(q, r.order, r.start - 1) && !Covered(q, r.order, End(r));
    assert !Covered(p, r.order, End(x));
  }

  /** For batches of any byte orders that meet the condition the ranges depend only on what is
      read. */
  lemma CanonicalMixed(a: seq<BatchItem>, sortedA: seq<BatchItem>, b: seq<BatchItem>, sortedB: seq<BatchItem>,
                       r: BatchItem)
    requires AllNoWrap(a) && AllPositive(a) && IsSort(sortedA, a) && Grouped(sortedA)
    requires AllNoWrap(b) && AllPositive(b) && IsSort(sortedB, b) && Grouped(sortedB)
    requires SameReads(a, b)
    ensures |sortedA| == |a| && |sortedB| == |b|
    ensures r in Optimize(a, sortedA) ==> HasRange(Optimize(b, sortedB), r)
    ensures |Optimize(a, sortedA)| == |Optimize(b, sortedB)|
  {
    ShortestIff(a, sortedA);
    ShortestIff(b, sortedB);
    ResultShape(a, sortedA);
    ResultShape(b, sortedB);
    var p, q := Optimize(a, sortedA), Optimize(b, sortedB);
    forall order: Byte
      ensures SameCover(p, q, order) && SameCover(q, p, order)
    {
      assert SameCover(a, p, order) && SameCover(b, q, order) && SameCover(a, b, order);
    }
    if r in p {
      SpacedSameRange(p, q, r);
    }
  }

  // ---- again ----------------------------------------------------------------------------------

  predicate MergesAt(items: seq<BatchItem>, k: nat)
    requires 0 < k < |items|
  {
    Mergeable(items[k - 1], items[k])
  }

  predicate NeighboursMerge(items: seq<BatchItem>) { exists k :: 0 < k < |items| && MergesAt(items, k) }

  /** The same, item by item. */
  predicate Apart(items: seq<BatchItem>)
    decreases items
  {
    |items| < 2 || (!Mergeable(items[0], items[1]) && Apart(items[1..]))
  }

  lemma {:induction false} ApartIs(items: seq<BatchItem>)
    ensures Apart(items) <==> !NeighboursMerge(items)
    decreases items
  {
    if |items| >= 2 {
      var rest := items[1..];
      ApartIs(rest);
      assert forall k | 0 < k < |rest| :: MergesAt(rest, k) == MergesAt(items, k + 1);
      if k :| 0 < k < |items| && MergesAt(items, k) {
        assert k > 1 ==> MergesAt(rest, k - 1);
      }
      assert MergesAt(items, 1) == Mergeable(items[0], items[1]);
    }
  }

  lemma {:induction false} MergeLength(last: BatchItem, rest: seq<BatchItem>)
    ensures |MergeFrom(last, rest)| <= 1 + |rest|
    ensures if Apart([last] + rest) then MergeFrom(last, rest) == [last] + rest
            else |MergeFrom(last, rest)| < 1 + |rest|
    decreases rest
  {
    assert ([last] + rest)[1..] == rest;
    if rest != [] {
      var curr, tail := rest[0], rest[1..];
      HeadTail(rest);
      MergeLength(if Mergeable(last, curr) then Merge(last, curr) else curr, tail);
    }
  }

  /** Running the optimiser on any batch changes nothing but the order if and only if no two
      neighbours of the sorted batch merge. */
  lemma UnchangedIff(items: seq<BatchItem>, sorted: seq<BatchItem>)
    requires IsSort(sorted, items)
    ensures |sorted| == |items|
    ensures multiset(Optimize(items, sorted)) == multiset(items) <==> !NeighboursMerge(sorted)
  {
    SortLength(sorted, items);
    ApartIs(sorted);
    if |items| > 1 {
      HeadTail(sorted);
      MergeLength(sorted[0], sorted[1..]);
      assert |multiset(Optimize(items, sorted))| == |Optimize(items, sorted)|;
      assert |multiset(items)| == |items|;
    }
  }

  lemma NoneMerge(rs: seq<BatchItem>, again: seq<BatchItem>, k: nat)
    requires Spaced(rs) && AllPositive(rs) && AllNoWrap(rs) && IsSort(again, rs) && 0 < k < |again|
    ensures !MergesAt(again, k)
  {
    SortMembers(again, rs);
    DistinctStarts(rs);
    NoRepeats(rs, again, k);
    var x, y := again[k - 1], again[k];
    assert x in rs && y in rs;
    var i :| 0 <= i < |rs| && rs[i] == x;
    var j :| 0 <= j < |rs| && rs[j] == y;
    if x.order == y.order {
      if i < j {
        SpacedPair(rs, i, j);
      } else {
        SpacedPair(rs, j, i);
      }
    }
  }

  /** A batch that meets the condition stays as it is when it is optimised again, whatever the
      second sort does with equal starts. */
  lemma OptimizedAgain(items: seq<BatchItem>, sorted: seq<BatchItem>, again: seq<BatchItem>)
    requires AllNoWrap(items) && AllPositive(items) && IsSort(sorted, items) && |sorted| == |items|
    requires Grouped(sorted) && IsSort(again, Optimize(items, sorted))
    ensures |again| == |Optimize(items, sorted)|
    ensures multiset(Optimize(Optimize(items, sorted), again)) == multiset(Optimize(items, sorted))
  {
    var rs := Optimize(items, sorted);
    ResultShape(items, sorted);
    UnchangedIff(rs, again);
    forall k | 0 < k < |again|
      ensures !MergesAt(again, k)
    {
      NoneMerge(rs, again, k);
    }
  }

  lemma {:induction false} DistinctStarts(rs: seq<BatchItem>)
    requires Spaced(rs) && AllPositive(rs)
    ensures forall i, j | 0 <= i < j < |rs| :: rs[i] != rs[j]
  {
    forall i, j | 0 <= i < j < |rs|
      ensures rs[i] != rs[j]
    {
      if rs[i].order == rs[j].order {
        SpacedPair(rs, i, j);
      }
    }
  }

  lemma OnlyOnce(rs: seq<BatchItem>, i: nat)
    requires i < |rs| && forall j, k | 0 <= j < k < |rs| :: rs[j] != rs[k]
    ensures multiset(rs)[rs[i]] == 1
  {
    var x, front, back := rs[i], rs[..i], rs[i + 1..];
    assert rs == front + [x] + back;
    assert x !in front && x !in back;
    assert multiset(front)[x] == 0 && multiset(back)[x] == 0;
  }

  lemma PairCount(again: seq<BatchItem>, k: nat)
    requires 0 < k < |again|
    ensures multiset(again)[again[k]] >= if again[k - 1] == again[k] then 2 else 1
  {
    var pair := [again[k - 1], again[k]];
    assert again == again[..k - 1] + (pair + again[k + 1..]);
    assert multiset(again) == multiset(again[..k - 1]) + (multiset(pair) + multiset(again[k + 1..]));
  }

  lemma NoRepeats(rs: seq<BatchItem>, again: seq<BatchItem>, k: nat)
    requires multiset(again) == multiset(rs) && 0 < k < |again|
    requires forall i, j | 0 <= i < j < |rs| :: rs[i] != rs[j]
    ensures again[k - 1] != again[k]
  {
    var x := again[k];
    assert x in multiset(again);
    var i :| 0 <= i < |rs| && rs[i] == x;
    OnlyOnce(rs, i);
    PairCount(again, k);
  }

  lemma NothingMerges(x: BatchItem, y: BatchItem, z: BatchItem)
    requires x == BatchItem(0, 1, 0, 0) && y == BatchItem(1, 1, 0, 1) && z == BatchItem(1, 1, 0, 0)
    ensures MergeFrom(x, [y, z]) == [x, y, z]
  {
    assert [y, z][1..] == [z] && [z][1..] == [];
    assert MergeFrom(z, []) == [z];
    assert MergeFrom(y, [z]) == [y, z];
  }

  lemma OneMerges(x: BatchItem, y: BatchItem, z: BatchItem)
    requires x == BatchItem(0, 1, 0, 0) && y == BatchItem(1, 1, 0, 1) && z == BatchItem(1, 1, 0, 0)
    ensures MergeFrom(x, [z, y]) == [Merge(x, z), y]
  {
    assert [z, y][1..] == [y] && [y][1..] == [];
    assert MergeFrom(y, []) == [y];
    assert MergeFrom(Merge(x, z), [y]) == [Merge(x, z), y];
  }

  lemma SortsOfThree(x: BatchItem, y: BatchItem, z: BatchItem)
    requires x.start < y.start == z.start
    ensures IsSort([x, y, z], [x, y, z]) && IsSort([x, z, y], [x, y, z])
  {
    assert multiset([x, z, y]) == multiset{x, y, z};
  }

  /** A batch that does not meet it may change: one sort leaves three ranges, and another sort
      of these three, which is just as legal, makes two of them. */
  lemma MixedOrdersNotIdempotent(x: BatchItem, y: BatchItem, z: BatchItem, p: seq<BatchItem>, q: seq<BatchItem>)
    requires x == BatchItem(0, 1, 0, 0) && y == BatchItem(1, 1, 0, 1) && z == BatchItem(1, 1, 0, 0)
    requires p == [x, y, z] && q == [x, z, y]
    ensures IsSort(p, p) && IsSort(q, p)
    ensures Optimize(p, p) == p && |Optimize(p, q)| == 2
  {
    assert p[1..] == [y, z] && q[1..] == [z, y];
    SortsOfThree(x, y, z);
    NothingMerges(x, y, z);
    OneMerges(x, y, z);
  }
}
