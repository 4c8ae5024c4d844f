/**
 The optimiser described from outside: it cuts the sorted batch into groups of neighbours that
 touch, and every range of the result stands for one group, 16-bit ends included.
 */
module BatchGroups {
  import opened Bytes
  import opened BatchRequests

  /** The exclusive end of a range, as 16 bits. */
  function End(x: BatchItem): nat { (x.start as nat + x.count) % 0x1_0000 }

  /** Item `x` begins no later than some item of its group before it ends. */
  predicate Joins(sorted: seq<BatchItem>, lo: nat, x: nat)
    requires x < |sorted|
  {
    exists y :: lo <= y < x && sorted[x].start <= End(sorted[y])
  }

  /** Some item of the group ends where the range does, and none ends later. */
  predicate EndsWith(sorted: seq<BatchItem>, lo: nat, hi: nat, r: BatchItem)
    requires hi <= |sorted|
  {
    && (forall x | lo <= x < hi :: End(sorted[x]) <= End(r))
    && exists x :: lo <= x < hi && End(sorted[x]) == End(r)
  }

  /** `r` stands for the items from `lo` up to `hi`: one item as it is, several as 16-bit values. */
  predicate StandsFor(sorted: seq<BatchItem>, lo: nat, hi: nat, r: BatchItem)
    requires lo < hi <= |sorted|
  {
    && r.start == sorted[lo].start && (forall x | lo <= x < hi :: sorted[x].order == r.order)
    && (hi == lo + 1 ==> r == sorted[lo])
    && (hi > lo + 1 ==> r.typeCode == 0)
    && EndsWith(sorted, lo, hi, r)
    && forall x | lo < x < hi :: Joins(sorted, lo, x)
  }

  /** Range `k` stands for the items between two cuts, and the first of them does not join the
      range before. */
  predicate GroupAt(sorted: seq<BatchItem>, rs: seq<BatchItem>, cuts: seq<nat>, k: nat)
    requires |cuts| == |rs| + 1 && k < |rs|
  {
    && cuts[k] < cuts[k + 1] <= |sorted| && StandsFor(sorted, cuts[k], cuts[k + 1], rs[k])
    && (k > 0 ==> !(sorted[cuts[k]].start <= End(rs[k - 1]) && sorted[cuts[k]].order == rs[k - 1].order))
  }

  /** `cuts` are the positions at which groups begin, and the end. */
  predicate Grouped(sorted: seq<BatchItem>, from: nat, rs: seq<BatchItem>, cuts: seq<nat>)
  {
    && |cuts| == |rs| + 1 && cuts[0] == from && cuts[|rs|] == |sorted|
    && forall k | 0 <= k < |rs| :: GroupAt(sorted, rs, cuts, k)
  }

  lemma MergedEnd(last: BatchItem, curr: BatchItem, m: BatchItem)
    requires m == Merge(last, curr)
    ensures m.start == last.start && m.order == last.order && m.typeCode == 0
    ensures End(m) == if End(last) < End(curr) then End(curr) else End(last)
  {
    var e: Word := if End(last) < End(curr) then End(curr) else End(last);
    assert m.count == ToWord(e - last.start);
    CountFromEnd(last.start, e);
  }

  lemma CountFromEnd(start: Word, end: Word)
    ensures (start as nat + ToWord(end - start)) % 0x1_0000 == end
  {
  }

  /** One more item joins the group. */
  lemma GroupGrows(sorted: seq<BatchItem>, lo: nat, i: nat, last: BatchItem, m: BatchItem)
    requires lo < i < |sorted| && StandsFor(sorted, lo, i, last)
    requires Mergeable(last, sorted[i]) && m == Merge(last, sorted[i])
    ensures StandsFor(sorted, lo, i + 1, m)
  {
    MergedEnd(last, sorted[i], m);
    var y :| lo <= y < i && End(sorted[y]) == End(last);
    assert Joins(sorted, lo, i);
    assert End(sorted[y]) == End(m) || End(sorted[i]) == End(m);
  }

  lemma Alone(sorted: seq<BatchItem>, i: nat)
    requires i < |sorted|
    ensures StandsFor(sorted, i, i + 1, sorted[i])
  {
    assert End(sorted[i]) == End(sorted[i]);
  }

  lemma GroupStarts(sorted: seq<BatchItem>, lo: nat, i: nat, last: BatchItem, rs: seq<BatchItem>, cuts: seq<nat>)
    requires lo < i < |sorted| && StandsFor(sorted, lo, i, last) && !Mergeable(last, sorted[i])
    requires rs != [] && Grouped(sorted, i, rs, cuts)
    ensures Grouped(sorted, lo, [last] + rs, [lo] + cuts)
  {
    var all, at := [last] + rs, [lo] + cuts;
    forall k | 0 <= k < |all|
      ensures GroupAt(sorted, all, at, k)
    {
      if k > 0 {
        assert GroupAt(sorted, rs, cuts, k - 1);
      }
    }
  }

  lemma {:induction false} GroupsFrom(sorted: seq<BatchItem>, lo: nat, i: nat, last: BatchItem) returns (cuts: seq<nat>)
    requires lo < i <= |sorted| && StandsFor(sorted, lo, i, last)
    ensures Grouped(sorted, lo, MergeFrom(last, sorted[i..]), cuts)
    decreases |sorted| - i
  {
    if i == |sorted| {
      cuts := [lo, i];
      assert MergeFrom(last, sorted[i..]) == [last];
    } else {
      assert sorted[i..][0] == sorted[i] && sorted[i..][1..] == sorted[i + 1..];
      if Mergeable(last, sorted[i]) {
        GroupGrows(sorted, lo, i, last, Merge(last, sorted[i]));
        cuts := GroupsFrom(sorted, lo, i + 1, Merge(last, sorted[i]));
      } else {
        Alone(sorted, i);
        var rest := GroupsFrom(sorted, i, i + 1, sorted[i]);
        GroupStarts(sorted, lo, i, last, MergeFrom(sorted[i], sorted[i + 1..]), rest);
        cuts := [lo] + rest;
      }
    }
  }

  /** Any batch, whatever its byte orders and however close to the top address: the result is one
      range for every group of the sorted items. */
  lemma RangesAreGroups(items: seq<BatchItem>, sorted: seq<BatchItem>) returns (cuts: seq<nat>)
    requires IsSort(sorted, items)
    ensures |sorted| == |items| && Grouped(sorted, 0, Optimize(items, sorted), cuts)
  {
    SortLength(sorted, items);
    if |items| == 0 {
      cuts := [0];
    } else if |items| == 1 {
      assert sorted == items by {
        assert items == [items[0]] && sorted == [sorted[0]];
        assert sorted[0] in multiset(items);
      }
      Alone(sorted, 0);
      cuts := [0, 1];
    } else {
      Alone(sorted, 0);
      cuts := GroupsFrom(sorted, 0, 1, sorted[0]);
    }
  }

  lemma TailGrouped(sorted: seq<BatchItem>, from: nat, rs: seq<BatchItem>, cuts: seq<nat>)
    requires rs != [] && Grouped(sorted, from, rs, cuts)
    ensures Grouped(sorted, cuts[1], rs[1..], cuts[1..])
  {
    forall k | 0 <= k < |rs[1..]|
      ensures GroupAt(sorted, rs[1..], cuts[1..], k)
    {
      assert GroupAt(sorted, rs, cuts, k + 1);
    }
  }

  lemma JoinsRange(sorted: seq<BatchItem>, lo: nat, x: nat, r: BatchItem)
    requires x < |sorted| && EndsWith(sorted, lo, x, r) && Joins(sorted, lo, x)
    ensures sorted[x].start <= End(r)
  {
    var y :| lo <= y < x && sorted[x].start <= End(sorted[y]);
    assert End(sorted[y]) <= End(r);
  }

  /** Two groups from the same item on, each cut where the next item does not join, end alike. */
  lemma SameCut(sorted: seq<BatchItem>, lo: nat, a: nat, p: BatchItem, b: nat, q: BatchItem)
    requires lo < a <= |sorted| && lo < b <= |sorted| && StandsFor(sorted, lo, a, p) && StandsFor(sorted, lo, b, q)
    requires a < |sorted| ==> !(sorted[a].start <= End(p) && sorted[a].order == p.order)
    ensures b <= a
  {
    if a < b {
      JoinsRange(sorted, lo, a, p);
    }
  }

  lemma SameRange(sorted: seq<BatchItem>, lo: nat, hi: nat, p: BatchItem, q: BatchItem)
    requires lo < hi <= |sorted| && StandsFor(sorted, lo, hi, p) && StandsFor(sorted, lo, hi, q)
    ensures p == q
  {
    if hi > lo + 1 {
      assert p.order == sorted[lo].order == q.order;
      SameEnd(sorted, lo, hi, p, q);
      SameCount(p.start, p.count, q.count);
    }
  }

  lemma SameEnd(sorted: seq<BatchItem>, lo: nat, hi: nat, p: BatchItem, q: BatchItem)
    requires hi <= |sorted| && EndsWith(sorted, lo, hi, p) && EndsWith(sorted, lo, hi, q)
    ensures End(p) == End(q)
  {
  }

  lemma SameCount(start: nat, a: Word, b: Word)
    requires (start + a) % 0x1_0000 == (start + b) % 0x1_0000
    ensures a == b
  {
    var q := (start + a) / 0x1_0000 - (start + b) / 0x1_0000;
    assert a - b == 0x1_0000 * q;
  }

  /** Only one list of ranges is described like that: it is what the optimiser returns. */
  lemma {:induction false} GroupsUnique(sorted: seq<BatchItem>, from: nat, p: seq<BatchItem>, a: seq<nat>,
                                        q: seq<BatchItem>, b: seq<nat>)
    requires Grouped(sorted, from, p, a) && Grouped(sorted, from, q, b)
    ensures p == q
    decreases |p|
  {
    if p == [] || q == [] {
      assert p != [] ==> GroupAt(sorted, p, a, 0) && from < |sorted|;
      assert q != [] ==> GroupAt(sorted, q, b, 0) && from < |sorted|;
    } else {
      FirstCut(sorted, from, p, a, q, b);
      FirstCut(sorted, from, q, b, p, a);
      assert GroupAt(sorted, p, a, 0) && GroupAt(sorted, q, b, 0);
      SameRange(sorted, from, a[1], p[0], q[0]);
      TailGrouped(sorted, from, p, a);
      TailGrouped(sorted, from, q, b);
      GroupsUnique(sorted, a[1], p[1..], a[1..], q[1..], b[1..]);
      assert p == [p[0]] + p[1..] && q == [q[0]] + q[1..];
    }
  }

  lemma FirstCut(sorted: seq<BatchItem>, from: nat, p: seq<BatchItem>, a: seq<nat>, q: seq<BatchItem>, b: seq<nat>)
    requires p != [] && q != [] && Grouped(sorted, from, p, a) && Grouped(sorted, from, q, b)
    ensures b[1] <= a[1]
  {
    assert GroupAt(sorted, p, a, 0) && GroupAt(sorted, q, b, 0);
    if a[1] < |sorted| {
      assert |p| > 1 && GroupAt(sorted, p, a, 1);
    }
    SameCut(sorted, from, a[1], p[0], b[1], q[0]);
  }

  ghost predicate SomeGrouping(sorted: seq<BatchItem>, rs: seq<BatchItem>)
  {
    exists cuts: seq<nat> :: Grouped(sorted, 0, rs, cuts)
  }

  /** The optimised batch is the one list of ranges that stands for the groups of the sorted items. */
  lemma OptimizedIff(items: seq<BatchItem>, sorted: seq<BatchItem>, rs: seq<BatchItem>)
    requires IsSort(sorted, items)
    ensures |sorted| == |items| && (rs == Optimize(items, sorted) <==> SomeGrouping(sorted, rs))
  {
    var cuts := RangesAreGroups(items, sorted);
    if SomeGrouping(sorted, rs) {
      var other: seq<nat> :| Grouped(sorted, 0, rs, other);
      GroupsUnique(sorted, 0, rs, other, Optimize(items, sorted), cuts);
    }
  }
}
