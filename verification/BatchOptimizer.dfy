/** What merging does to a batch: nothing is lost, and the result is canonical. */
module BatchOptimizer {
  import opened Bytes
  import opened BatchRequests

  predicate AllNoWrap(items: seq<BatchItem>) { forall x | x in items :: NoWrap(x) }

  predicate AllPositive(items: seq<BatchItem>) { forall x | x in items :: x.count > 0 }

  predicate AllOrder(items: seq<BatchItem>, order: Byte) { forall x | x in items :: x.order == order }

  /** Ascending starts, none below `s`. */
  predicate SortedFrom(s: int, items: seq<BatchItem>)
    decreases items
  {
    items == [] || (s <= items[0].start && SortedFrom(items[0].start, items[1..]))
  }

  /** Non-empty ranges in ascending order, each starting after a gap; the first after `e`. */
  predicate SeparatedFrom(e: int, rs: seq<BatchItem>)
    decreases rs
  {
    rs == [] || (e < rs[0].start && rs[0].count > 0 && SeparatedFrom(rs[0].start + rs[0].count, rs[1..]))
  }

  predicate Separated(rs: seq<BatchItem>) { SeparatedFrom(-1, rs) }

  /** `r` reads everything `x` reads, with the same byte order. */
  predicate Serves(r: BatchItem, x: BatchItem)
  {
    r.order == x.order && r.start <= x.start && x.start + x.count <= r.start + r.count
  }

  /** The registers an item reads from a register file. */
  function Values(file: int -> Word, x: BatchItem): (vs: seq<Word>)
    ensures |vs| == x.count
  {
    seq(x.count, i => file(x.start + i))
  }

  // ---- helpers --------------------------------------------------------------------

  lemma SortMembers(sorted: seq<BatchItem>, items: seq<BatchItem>)
    requires IsSort(sorted, items)
    ensures |sorted| == |items|
    ensures forall x :: x in sorted <==> x in items
  {
    SortLength(sorted, items);
    forall x
      ensures x in sorted <==> x in items
    {
      assert x in sorted <==> x in multiset(sorted);
      assert x in items <==> x in multiset(items);
    }
  }

  lemma {:induction false} SortedChain(items: seq<BatchItem>, s: int)
    requires Sorted(items) && (items != [] ==> s <= items[0].start)
    ensures SortedFrom(s, items)
    decreases items
  {
    if items != [] {
      assert forall i | 0 <= i < |items[1..]| :: items[1..][i] == items[i + 1];
      SortedChain(items[1..], items[0].start);
    }
  }

  lemma MergeFacts(last: BatchItem, curr: BatchItem)
    requires NoWrap(last) && NoWrap(curr) && last.start <= curr.start && Mergeable(last, curr)
    ensures NoWrap(Merge(last, curr)) && Merge(last, curr).start == last.start
    ensures Merge(last, curr).order == last.order == curr.order
    ensures forall a :: Covers(Merge(last, curr), a) <==> Covers(last, a) || Covers(curr, a)
    ensures Serves(Merge(last, curr), last) && Serves(Merge(last, curr), curr)
    ensures last.count > 0 ==> Merge(last, curr).count > 0
  {
  }

  lemma CoveredCons(x: BatchItem, tail: seq<BatchItem>, order: Byte, a: int)
    ensures Covered([x] + tail, order, a) <==> (x.order == order && Covers(x, a)) || Covered(tail, order, a)
  {
    assert forall y :: y in [x] + tail <==> y == x || y in tail;
    assert x in [x] + tail;
  }

  lemma HeadTail(items: seq<BatchItem>)
    requires items != []
    ensures items == [items[0]] + items[1..]
  {
  }

  // ---- meaning is preserved ---------------------------------------------------------

  lemma {:induction false} MergeServes(last: BatchItem, rest: seq<BatchItem>, x: BatchItem)
    requires SortedFrom(last.start, rest) && NoWrap(last) && AllNoWrap(rest)
    requires x in rest || Serves(last, x)
    ensures exists r :: r in MergeFrom(last, rest) && Serves(r, x)
    decreases rest
  {
    if rest == [] {
      assert last in MergeFrom(last, rest);
    } else {
      var curr, tail := rest[0], rest[1..];
      HeadTail(rest);
      if Mergeable(last, curr) {
        MergeFacts(last, curr);
        MergeServes(Merge(last, curr), tail, x);
      } else if Serves(last, x) {
        assert last in MergeFrom(last, rest);
      } else {
        MergeServes(curr, tail, x);
        var r :| r in MergeFrom(curr, tail) && Serves(r, x);
        assert r in MergeFrom(last, rest);
      }
    }
  }

  lemma ServedValues(file: int -> Word, x: BatchItem, r: BatchItem)
    requires Serves(r, x)
    ensures Values(file, x) == Values(file, r)[x.start - r.start..][..x.count]
  {
  }

  predicate ServesValues(file: int -> Word, r: BatchItem, x: BatchItem)
  {
    Serves(r, x) && Values(file, x) == Values(file, r)[x.start - r.start..][..x.count]
  }

  /** Every original item is a slice of one optimised range of the same byte order, whatever
      order the sort gives equal starts and whatever the registers hold. */
  lemma ItemsServed(items: seq<BatchItem>, sorted: seq<BatchItem>, x: BatchItem, file: int -> Word)
    requires AllNoWrap(items) && IsSort(sorted, items) && x in items
    ensures |sorted| == |items|
    ensures exists r :: r in Optimize(items, sorted) && ServesValues(file, r, x)
  {
    SortMembers(sorted, items);
    if |items| <= 1 {
      assert Serves(x, x);
    } else {
      HeadTail(sorted);
      SortedChain(sorted, sorted[0].start);
      MergeServes(sorted[0], sorted[1..], x);
    }
    var r :| r in Optimize(items, sorted) && Serves(r, x);
    ServedValues(file, x, r);
    assert ServesValues(file, r, x);
  }

  lemma {:induction false} MergeCovers(last: BatchItem, rest: seq<BatchItem>, order: Byte, a: int)
    requires SortedFrom(last.start, rest) && NoWrap(last) && AllNoWrap(rest)
    ensures Covered(MergeFrom(last, rest), order, a)
       <==> (last.order == order && Covers(last, a)) || Covered(rest, order, a)
    ensures AllNoWrap(MergeFrom(last, rest))
    decreases rest
  {
    if rest == [] {
      CoveredCons(last, [], order, a);
      assert [last] + [] == [last];
    } else {
      var curr, tail := rest[0], rest[1..];
      HeadTail(rest);
      CoveredCons(curr, tail, order, a);
      if Mergeable(last, curr) {
        MergeFacts(last, curr);
        MergeCovers(Merge(last, curr), tail, order, a);
      } else {
        MergeCovers(curr, tail, order, a);
        CoveredCons(last, MergeFrom(curr, tail), order, a);
      }
    }
  }

  /** The addresses read per byte order are the same before and after. */
  lemma CoverageUnchanged(items: seq<BatchItem>, sorted: seq<BatchItem>, order: Byte, a: int)
    requires AllNoWrap(items) && IsSort(sorted, items)
    ensures |sorted| == |items|
    ensures Covered(Optimize(items, sorted), order, a) <==> Covered(items, order, a)
  {
    SortMembers(sorted, items);
    if |items| > 1 {
      HeadTail(sorted);
      SortedChain(sorted, sorted[0].start);
      CoveredCons(sorted[0], sorted[1..], order, a);
      MergeCovers(sorted[0], sorted[1..], order, a);
    }
  }

  // ---- the canonical form --------------------------------------------------------------

  lemma {:induction false} MergeSeparates(last: BatchItem, rest: seq<BatchItem>, e: int)
    requires SortedFrom(last.start, rest) && NoWrap(last) && AllNoWrap(rest) && e < last.start
    requires last.count > 0 && AllPositive(rest) && AllOrder(rest, last.order)
    ensures SeparatedFrom(e, MergeFrom(last, rest)) && AllOrder(MergeFrom(last, rest), last.order)
    ensures AllNoWrap(MergeFrom(last, rest))
    decreases rest
  {
    if rest != [] {
      var curr, tail := rest[0], rest[1..];
      HeadTail(rest);
      if Mergeable(last, curr) {
        MergeFacts(last, curr);
        MergeSeparates(Merge(last, curr), tail, e);
      } else {
        MergeSeparates(curr, tail, last.start + last.count);
        var r := MergeFrom(curr, tail);
        assert ([last] + r)[1..] == r;
      }
    }
  }

  lemma OptimizeSeparates(items: seq<BatchItem>, sorted: seq<BatchItem>, order: Byte)
    requires AllNoWrap(items) && AllOrder(items, order) && AllPositive(items) && IsSort(sorted, items)
    ensures |sorted| == |items|
    ensures var rs := Optimize(items, sorted);
      Separated(rs) && AllOrder(rs, order) && AllNoWrap(rs)
  {
    SortMembers(sorted, items);
    if |items| > 1 {
      HeadTail(sorted);
      SortedChain(sorted, sorted[0].start);
      MergeSeparates(sorted[0], sorted[1..], -1);
    }
  }

  lemma {:induction false} SeparatedBeyond(e: int, rs: seq<BatchItem>, order: Byte, a: int)
    requires SeparatedFrom(e, rs) && Covered(rs, order, a)
    ensures a > e
    decreases rs
  {
    if rs != [] {
      HeadTail(rs);
      CoveredCons(rs[0], rs[1..], order, a);
      if Covered(rs[1..], order, a) {
        SeparatedBeyond(rs[0].start + rs[0].count, rs[1..], order, a);
      }
    }
  }

  lemma CoversFirst(rs: seq<BatchItem>, order: Byte)
    requires rs != [] && rs[0].count > 0 && rs[0].order == order
    ensures Covered(rs, order, rs[0].start)
  {
    assert rs[0] in rs && Covers(rs[0], rs[0].start);
  }

  /** What lies beyond the first range is read by the others. */
  lemma AfterFirst(rs: seq<BatchItem>, e: int, order: Byte, a: int)
    requires SeparatedFrom(e, rs) && rs != [] && rs[0].order == order
    ensures Covered(rs[1..], order, a) <==> Covered(rs, order, a) && a >= rs[0].start + rs[0].count
    ensures Covered(rs, order, a) ==> a >= rs[0].start
  {
    HeadTail(rs);
    CoveredCons(rs[0], rs[1..], order, a);
    if Covered(rs[1..], order, a) {
      SeparatedBeyond(rs[0].start + rs[0].count, rs[1..], order, a);
    }
  }

  ghost predicate SameCover(p: seq<BatchItem>, q: seq<BatchItem>, order: Byte)
  {
    forall a: int :: Covered(p, order, a) <==> Covered(q, order, a)
  }

  predicate SameRanges(p: seq<BatchItem>, q: seq<BatchItem>)
  {
    |p| == |q| && forall i | 0 <= i < |p| :: p[i].start == q[i].start && p[i].count == q[i].count
  }

  lemma FirstNotLess(p: seq<BatchItem>, q: seq<BatchItem>, e: int, order: Byte)
    requires SeparatedFrom(e, p) && SeparatedFrom(e, q) && p != [] && q != []
    requires AllOrder(p, order) && AllOrder(q, order) && SameCover(p, q, order)
    ensures p[0].start >= q[0].start
    ensures p[0].start == q[0].start ==> p[0].count >= q[0].count
  {
    CoversFirst(p, order);
    AfterFirst(q, e, order, p[0].start);
    var end := p[0].start + p[0].count;
    if p[0].start == q[0].start && p[0].count < q[0].count {
      assert Covers(q[0], end) && Covered(q, order, end);
      AfterFirst(p, e, order, end);
      SeparatedBeyond(end, p[1..], order, end);
    }
  }

  /** Two separated lists that read the same addresses consist of the same ranges. */
  lemma {:induction false} SeparatedUnique(p: seq<BatchItem>, q: seq<BatchItem>, e: int, order: Byte)
    requires SeparatedFrom(e, p) && SeparatedFrom(e, q)
    requires AllOrder(p, order) && AllOrder(q, order) && SameCover(p, q, order)
    ensures SameRanges(p, q)
    decreases p
  {
    if p == [] {
      if q != [] {
        CoversFirst(q, order);
      }
    } else {
      CoversFirst(p, order);
      FirstNotLess(p, q, e, order);
      FirstNotLess(q, p, e, order);
      forall a: int
        ensures Covered(p[1..], order, a) <==> Covered(q[1..], order, a)
      {
        AfterFirst(p, e, order, a);
        AfterFirst(q, e, order, a);
      }
      SeparatedUnique(p[1..], q[1..], p[0].start + p[0].count, order);
      assert forall i | 0 < i < |p| :: p[i] == p[1..][i - 1] && q[i] == q[1..][i - 1];
    }
  }

  /** The result depends only on the set of addresses: two batches that read the same
      addresses are optimised to the same ranges, whatever the sorts did. */
  lemma Canonical(a: seq<BatchItem>, sortedA: seq<BatchItem>, b: seq<BatchItem>, sortedB: seq<BatchItem>, order: Byte)
    requires AllNoWrap(a) && AllPositive(a) && AllOrder(a, order) && IsSort(sortedA, a)
    requires AllNoWrap(b) && AllPositive(b) && AllOrder(b, order) && IsSort(sortedB, b)
    requires SameCover(a, b, order)
    ensures |sortedA| == |a| && |sortedB| == |b|
    ensures SameRanges(Optimize(a, sortedA), Optimize(b, sortedB))
  {
    OptimizeSeparates(a, sortedA, order);
    OptimizeSeparates(b, sortedB, order);
    var p, q := Optimize(a, sortedA), Optimize(b, sortedB);
    forall addr: int
      ensures Covered(p, order, addr) <==> Covered(q, order, addr)
    {
      CoverageUnchanged(a, sortedA, order, addr);
      CoverageUnchanged(b, sortedB, order, addr);
    }
    SeparatedUnique(p, q, -1, order);
  }

  // ---- idempotence -----------------------------------------------------------------------

  lemma {:induction false} SeparatedIsFixed(last: BatchItem, rest: seq<BatchItem>)
    requires NoWrap(last) && AllNoWrap(rest) && SeparatedFrom(last.start + last.count, rest)
    ensures MergeFrom(last, rest) == [last] + rest
    decreases rest
  {
    if rest != [] {
      HeadTail(rest);
      SeparatedIsFixed(rest[0], rest[1..]);
    }
  }

  lemma {:induction false} SeparatedMember(e: int, rs: seq<BatchItem>, x: BatchItem)
    requires SeparatedFrom(e, rs) && x in rs
    ensures x.start > e && x.count > 0
    ensures x == rs[0] || x.start > rs[0].start
    decreases rs
  {
    HeadTail(rs);
    if x in rs[1..] {
      SeparatedMember(rs[0].start + rs[0].count, rs[1..], x);
    }
  }

  lemma SortTail(sorted: seq<BatchItem>, rs: seq<BatchItem>)
    requires IsSort(sorted, rs) && rs != [] && |sorted| == |rs| && sorted[0] == rs[0]
    ensures IsSort(sorted[1..], rs[1..])
  {
    HeadTail(rs);
    HeadTail(sorted);
    assert multiset(rs[1..]) == multiset(rs) - multiset{rs[0]};
    assert multiset(sorted[1..]) == multiset(sorted) - multiset{rs[0]};
    assert forall j | 0 <= j < |sorted[1..]| :: sorted[1..][j] == sorted[j + 1];
  }

  /** A separated list has one sort only. */
  lemma {:induction false} SeparatedSort(e: int, rs: seq<BatchItem>, sorted: seq<BatchItem>)
    requires SeparatedFrom(e, rs) && IsSort(sorted, rs)
    ensures sorted == rs
    decreases rs
  {
    SortMembers(sorted, rs);
    if rs != [] {
      assert rs[0] in sorted && sorted[0] in rs;
      SeparatedMember(e, rs, sorted[0]);
      var i :| 0 <= i < |sorted| && sorted[i] == rs[0];
      assert sorted[0] == rs[0];
      SortTail(sorted, rs);
      SeparatedSort(rs[0].start + rs[0].count, rs[1..], sorted[1..]);
      HeadTail(rs);
      HeadTail(sorted);
    }
  }

  /** Optimising an optimised batch changes nothing. */
  lemma Idempotent(items: seq<BatchItem>, sorted: seq<BatchItem>, again: seq<BatchItem>, order: Byte)
    requires AllNoWrap(items) && AllOrder(items, order) && AllPositive(items) && IsSort(sorted, items)
    requires |sorted| == |items| && IsSort(again, Optimize(items, sorted))
    ensures |again| == |Optimize(items, sorted)|
    ensures Optimize(Optimize(items, sorted), again) == Optimize(items, sorted)
  {
    var rs := Optimize(items, sorted);
    OptimizeSeparates(items, sorted, order);
    SeparatedSort(-1, rs, again);
    if |rs| > 1 {
      HeadTail(rs);
      SeparatedIsFixed(rs[0], rs[1..]);
    }
  }

  // ---- totals -------------------------------------------------------------------------------

  /** The distinct addresses read. */
  function Addresses(items: seq<BatchItem>, order: Byte): set<int>
  {
    set a | 0 <= a < 0x1_0000 && Covered(items, order, a)
  }

  lemma {:induction false} SeparatedTotal(e: int, rs: seq<BatchItem>, order: Byte)
    requires SeparatedFrom(e, rs) && AllNoWrap(rs) && AllOrder(rs, order)
    ensures Sum(rs) == |Addresses(rs, order)|
    decreases rs
  {
    if rs != [] {
      HeadTail(rs);
      var end := rs[0].start + rs[0].count;
      var head, tail := Interval(rs[0].start, end), Addresses(rs[1..], order);
      IntervalSize(rs[0].start, end);
      SeparatedTotal(end, rs[1..], order);
      assert NoWrap(rs[0]);
      forall a
        ensures a in Addresses(rs, order) <==> a in head || a in tail
        ensures a !in head || a !in tail
      {
        CoveredCons(rs[0], rs[1..], order, a);
        AfterFirst(rs, e, order, a);
      }
      assert Addresses(rs, order) == head + tail;
    }
  }

  /** The 16-bit total of the optimised batch is the number of distinct addresses: below the
      top address it never overflows. */
  lemma TotalIsDistinctAddresses(items: seq<BatchItem>, sorted: seq<BatchItem>, order: Byte)
    requires AllNoWrap(items) && AllPositive(items) && AllOrder(items, order) && IsSort(sorted, items)
    ensures |sorted| == |items|
    ensures ToWord(Sum(Optimize(items, sorted))) == |Addresses(items, order)|
  {
    OptimizeSeparates(items, sorted, order);
    var rs := Optimize(items, sorted);
    SeparatedTotal(-1, rs, order);
    forall a: int
      ensures Covered(rs, order, a) <==> Covered(items, order, a)
    {
      CoverageUnchanged(items, sorted, order, a);
    }
    assert Addresses(rs, order) == Addresses(items, order);
    IntervalSize(0, 0xFFFF);
    SubsetCardinality(Addresses(items, order), Interval(0, 0xFFFF));
  }

  // ---- the top of the address space ------------------------------------------------------

  predicate Valid(x: BatchItem) { x.start + x.count <= 0x1_0000 }

  predicate AllValid(items: seq<BatchItem>) { forall x | x in items :: Valid(x) }

  /** The first item that runs up to address 65535 is touched by an earlier one; `e` is the
      furthest end met so far. */
  predicate TopTouched(e: int, sorted: seq<BatchItem>)
    decreases sorted
  {
    sorted != [] &&
    var x := sorted[0];
    if ReachesTop(x) then x.start <= e
    else TopTouched(if e < x.start + x.count then x.start + x.count else e, sorted[1..])
  }

  lemma {:induction false} MergeWithin(last: BatchItem, rest: seq<BatchItem>, order: Byte, a: int)
    requires SortedFrom(last.start, rest) && Valid(last) && AllValid(rest)
    requires Covered(MergeFrom(last, rest), order, a)
    ensures last.start <= a < 0x1_0000
    decreases rest
  {
    if rest == [] {
      assert Covers(last, a);
    } else {
      var curr, tail := rest[0], rest[1..];
      assert curr in rest;
      if Mergeable(last, curr) {
        MergeWithin(Merge(last, curr), tail, order, a);
      } else {
        CoveredCons(last, MergeFrom(curr, tail), order, a);
        if Covered(MergeFrom(curr, tail), order, a) {
          MergeWithin(curr, tail, order, a);
        }
      }
    }
  }

  /** Behind an item that reaches the top nothing merges into it, and nothing is added. */
  lemma TopKeeps(top: BatchItem, rest: seq<BatchItem>, order: Byte, a: int)
    requires SortedFrom(top.start, rest) && ReachesTop(top) && AllValid(rest) && AllOrder(rest, top.order)
    requires order == top.order
    ensures Covered(MergeFrom(top, rest), order, a) <==> Covers(top, a)
  {
    if Covered(MergeFrom(top, rest), order, a) {
      MergeWithin(top, rest, order, a);
    }
    if Covers(top, a) {
      assert MergeFrom(top, rest)[0] == top;
      assert top in MergeFrom(top, rest);
    }
  }

  lemma {:induction false} RestAbove(s: int, rest: seq<BatchItem>, order: Byte, a: int)
    requires SortedFrom(s, rest) && AllValid(rest) && Covered(rest, order, a)
    ensures s <= a < 0x1_0000
    decreases rest
  {
    HeadTail(rest);
    CoveredCons(rest[0], rest[1..], order, a);
    if Covered(rest[1..], order, a) {
      RestAbove(rest[0].start, rest[1..], order, a);
    }
  }

  lemma {:induction false} KeptUnlessTouched(last: BatchItem, rest: seq<BatchItem>, order: Byte, a: int)
    requires SortedFrom(last.start, rest) && NoWrap(last) && AllValid(rest)
    requires last.order == order && AllOrder(rest, order)
    requires !TopTouched(last.start + last.count, rest)
    ensures Covered(MergeFrom(last, rest), order, a) <==> Covers(last, a) || Covered(rest, order, a)
    decreases rest
  {
    if rest == [] {
      CoveredCons(last, [], order, a);
      assert [last] + [] == [last];
    } else {
      var curr, tail := rest[0], rest[1..];
      HeadTail(rest);
      assert curr in rest;
      CoveredCons(curr, tail, order, a);
      CoveredCons(last, MergeFrom(curr, tail), order, a);
      if ReachesTop(curr) {
        TopKeeps(curr, tail, order, a);
        if Covered(tail, order, a) {
          RestAbove(curr.start, tail, order, a);
        }
      } else if Mergeable(last, curr) {
        MergeFacts(last, curr);
        KeptUnlessTouched(Merge(last, curr), tail, order, a);
      } else {
        KeptUnlessTouched(curr, tail, order, a);
      }
    }
  }

  /** Once an item reaching the top has been swallowed, an address above `last` stays unread. */
  lemma {:induction false} GapAbove(last: BatchItem, rest: seq<BatchItem>, order: Byte) returns (a: int)
    requires SortedFrom(last.start, rest) && NoWrap(last) && AllValid(rest)
    requires last.order == order && AllOrder(rest, order)
    ensures last.start + last.count <= a < 0x1_0000 && !Covered(MergeFrom(last, rest), order, a)
    decreases rest
  {
    a := last.start + last.count;
    CoveredCons(last, [], order, a);
    assert [last] + [] == [last];
    if rest != [] {
      var curr, tail := rest[0], rest[1..];
      assert curr in rest;
      if Mergeable(last, curr) {
        if !ReachesTop(curr) {
          MergeFacts(last, curr);
        }
        a := GapAbove(Merge(last, curr), tail, order);
      } else {
        CoveredCons(last, MergeFrom(curr, tail), order, a);
        if Covered(MergeFrom(curr, tail), order, a) {
          MergeWithin(curr, tail, order, a);
        }
      }
    }
  }

  lemma {:induction false} LostWhenTouched(last: BatchItem, rest: seq<BatchItem>, order: Byte) returns (a: int)
    requires SortedFrom(last.start, rest) && NoWrap(last) && AllValid(rest)
    requires last.order == order && AllOrder(rest, order)
    requires TopTouched(last.start + last.count, rest)
    ensures a >= last.start + last.count
    ensures Covered(rest, order, a) && !Covered(MergeFrom(last, rest), order, a)
    decreases rest
  {
    var curr, tail := rest[0], rest[1..];
    HeadTail(rest);
    assert curr in rest;
    if ReachesTop(curr) {
      a := GapAbove(Merge(last, curr), tail, order);
    } else if Mergeable(last, curr) {
      MergeFacts(last, curr);
      a := LostWhenTouched(Merge(last, curr), tail, order);
    } else {
      a := LostWhenTouched(curr, tail, order);
      CoveredCons(last, MergeFrom(curr, tail), order, a);
    }
    CoveredCons(curr, tail, order, a);
  }

  lemma FirstKept(last: BatchItem, rest: seq<BatchItem>, order: Byte, a: int)
    requires SortedFrom(last.start, rest) && Valid(last) && AllValid(rest)
    requires last.order == order && AllOrder(rest, order)
    requires ReachesTop(last) || !TopTouched(last.start + last.count, rest)
    ensures Covered(MergeFrom(last, rest), order, a) <==> Covers(last, a) || Covered(rest, order, a)
  {
    if ReachesTop(last) {
      TopKeeps(last, rest, order, a);
      if Covered(rest, order, a) {
        RestAbove(last.start, rest, order, a);
      }
    } else {
      KeptUnlessTouched(last, rest, order, a);
    }
  }

  lemma FirstExact(last: BatchItem, rest: seq<BatchItem>, order: Byte)
    requires SortedFrom(last.start, rest) && Valid(last) && AllValid(rest)
    requires last.order == order && AllOrder(rest, order)
    ensures SameCover(MergeFrom(last, rest), [last] + rest, order)
       <==> ReachesTop(last) || !TopTouched(last.start + last.count, rest)
  {
    if ReachesTop(last) || !TopTouched(last.start + last.count, rest) {
      forall a: int
        ensures Covered(MergeFrom(last, rest), order, a) <==> Covered([last] + rest, order, a)
      {
        CoveredCons(last, rest, order, a);
        FirstKept(last, rest, order, a);
      }
    } else {
      var a := LostWhenTouched(last, rest, order);
      CoveredCons(last, rest, order, a);
    }
  }

  lemma TopTouchedFirst(last: BatchItem, rest: seq<BatchItem>)
    ensures TopTouched(-1, [last] + rest) <==> !ReachesTop(last) && TopTouched(last.start + last.count, rest)
  {
    assert ([last] + rest)[1..] == rest;
  }

  lemma SortedExact(sorted: seq<BatchItem>, last: BatchItem, rest: seq<BatchItem>, order: Byte)
    requires sorted == [last] + rest && Sorted(sorted) && AllValid(sorted) && AllOrder(sorted, order)
    ensures SameCover(MergeFrom(last, rest), sorted, order) <==> !TopTouched(-1, sorted)
  {
    assert sorted[0] == last && sorted[1..] == rest;
    SortedChain(sorted, last.start);
    assert last in sorted && forall x | x in rest :: x in sorted;
    FirstExact(last, rest, order);
    TopTouchedFirst(last, rest);
  }

  lemma SameCoverTransitive(p: seq<BatchItem>, q: seq<BatchItem>, r: seq<BatchItem>, order: Byte)
    requires SameCover(p, q, order) && SameCover(q, r, order)
    ensures SameCover(p, r, order) && SameCover(r, q, order)
  {
  }

  /** With ranges up to and including address 65535 allowed, the optimiser keeps the
      addresses of a batch exactly when the first range that ends at 65535 is not adjoined or
      overlapped by one sorted before it. */
  lemma TopAddressExact(items: seq<BatchItem>, sorted: seq<BatchItem>, order: Byte)
    requires AllValid(items) && AllOrder(items, order) && IsSort(sorted, items)
    ensures |sorted| == |items|
    ensures SameCover(Optimize(items, sorted), items, order) <==> !TopTouched(-1, sorted)
  {
    SortMembers(sorted, items);
    SameMembersSameCover(sorted, items, order);
    var r := Optimize(items, sorted);
    if |items| > 1 {
      HeadTail(sorted);
      SortedExact(sorted, sorted[0], sorted[1..], order);
      if SameCover(r, sorted, order) {
        SameCoverTransitive(r, sorted, items, order);
      }
      if SameCover(r, items, order) {
        SameMembersSameCover(items, sorted, order);
        SameCoverTransitive(r, items, sorted, order);
      }
    } else {
      assert sorted != [] ==> sorted[1..] == [];
    }
  }

  lemma SameMembersSameCover(p: seq<BatchItem>, q: seq<BatchItem>, order: Byte)
    requires forall x :: x in p <==> x in q
    ensures SameCover(p, q, order)
  {
  }

  /** Two adjoining single registers at the very top: the second read is lost. */
  lemma TopAddressLost()
    ensures
      var items := [BatchItem(0xFFFE, 1, 0, 0), BatchItem(0xFFFF, 1, 0, 0)];
      IsSort(items, items) && Optimize(items, items) == [BatchItem(0xFFFE, 1, 0, 0)]
  {
    var items := [BatchItem(0xFFFE, 1, 0, 0), BatchItem(0xFFFF, 1, 0, 0)];
    assert MergeFrom(Merge(items[0], items[1]), items[1..][1..]) == [BatchItem(0xFFFE, 1, 0, 0)];
  }

  /** With mixed byte orders the result need not be shortest: only neighbours merge. */
  lemma MixedOrdersNotMinimal()
    ensures
      var items := [BatchItem(0, 1, 0, 0), BatchItem(1, 1, 0, 1), BatchItem(1, 1, 0, 0)];
      var others := [BatchItem(0, 2, 0, 0), BatchItem(1, 1, 0, 1)];
      && IsSort(items, items) && |Optimize(items, items)| == 3
      && forall order, a :: Covered(others, order, a) <==> Covered(items, order, a)
  {
    var x, y, z := BatchItem(0, 1, 0, 0), BatchItem(1, 1, 0, 1), BatchItem(1, 1, 0, 0);
    var w := BatchItem(0, 2, 0, 0);
    assert [x, y, z][1..] == [y, z] && [y, z][1..] == [z] && [z][1..] == [];
    assert MergeFrom(y, [z]) == [y, z] by { assert MergeFrom(z, []) == [z]; }
    assert MergeFrom(x, [y, z]) == [x, y, z];
    forall order: Byte, a: int
      ensures Covered([w, y], order, a) <==> Covered([x, y, z], order, a)
    {
      CoveredCons(w, [y], order, a);
      CoveredCons(x, [y, z], order, a);
      CoveredCons(y, [z], order, a);
      CoveredCons(y, [], order, a);
      CoveredCons(z, [], order, a);
      assert [w] + [y] == [w, y] && [x] + [y, z] == [x, y, z] && [y] + [z] == [y, z];
      assert [y] + [] == [y] && [z] + [] == [z];
    }
  }
}
