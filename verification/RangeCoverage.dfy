/** What coalescing keeps: the covered positions; and what it gains: order, gaps and disjointness. */
module RangeCoverage {
  import opened RangeHeader
  import opened RangeCheck

  ghost predicate Covers(ranges: seq<Range>, pos: int) {
    exists i :: 0 <= i < |ranges| && In(ranges[i], pos)
  }

  lemma CoversSnoc(ranges: seq<Range>, r: Range, pos: int)
    ensures Covers(ranges + [r], pos) <==> Covers(ranges, pos) || In(r, pos)
  {
    var all := ranges + [r];
    if Covers(ranges, pos) {
      var i :| 0 <= i < |ranges| && In(ranges[i], pos);
      assert all[i] == ranges[i];
    }
    if In(r, pos) { assert all[|ranges|] == r; }
  }

  /** Neighbours have a gap between them or share their start. */
  ghost predicate Chained(ranges: seq<Range>) {
    forall i :: 0 <= i < |ranges| - 1 ==>
      || ranges[i].last + 1 < ranges[i + 1].first
      || (ranges[i].first == ranges[i + 1].first && ranges[i].last <= ranges[i + 1].last)
  }

  /** All ranges lie apart, in order, with at least one octet between them. */
  ghost predicate Apart(ranges: seq<Range>) {
    forall i, j :: 0 <= i < j < |ranges| ==> ranges[i].last + 1 < ranges[j].first
  }

  ghost predicate Distinct(ranges: seq<Range>) {
    forall i, j :: 0 <= i < j < |ranges| ==> ranges[i] != ranges[j]
  }

  // ---------- One merge ----------

  lemma MergeCovers(acc: seq<Range>, r: Range, pos: int)
    requires r.first <= r.last
    requires acc != [] ==> acc[|acc| - 1].first <= r.first
    ensures Covers(Merge(acc, r), pos) <==> Covers(acc, pos) || In(r, pos)
  {
    hide Covers;
    var none: seq<Range> := [];
    if acc == [] {
      assert none + [r] == [r];
    } else {
      var k := |acc| - 1;
      var front, prev := acc[..k], acc[k];
      assert acc == front + [prev];
      CoversSnoc(front, prev, pos);
      CoversSnoc(front, Range(prev.first, if prev.last < r.last then r.last else prev.last), pos);
    }
    CoversSnoc(acc, r, pos);
    assert !Covers(none, pos) by { CoversNothing(pos); }
  }

  lemma CoversNothing(pos: int)
    ensures !Covers([], pos)
  {
  }

  lemma MergeChains(acc: seq<Range>, r: Range)
    requires Chained(acc)
    requires acc != [] ==> acc[|acc| - 1].first <= r.first
    ensures Chained(Merge(acc, r))
  {
  }

  lemma MergeWithin(acc: seq<Range>, r: Range, n: int)
    requires AllWithin(acc, n) && Within(r, n)
    requires acc != [] ==> acc[|acc| - 1].first <= r.first
    ensures var out := Merge(acc, r);
            AllWithin(out, n) && 0 < |out| <= |acc| + 1 && out[|out| - 1].first <= r.first
  {
  }

  // ---------- All of them ----------

  lemma CoalescedStep(front: seq<Range>, r: Range, n: int)
    requires Within(r, n)
    ensures Coalesced(front + [r], n) == Merge(Coalesced(front, n), r)
  {
    hide Merge;
    NormalTwice(r, n);
    assert (front + [r])[..|front|] == front;
  }

  lemma {:induction false} CoalescedShape(sorted: seq<Range>, n: int)
    requires AllWithin(sorted, n) && SortedByFirst(sorted)
    ensures var out := Coalesced(sorted, n);
            && AllWithin(out, n) && Chained(out) && |out| <= |sorted|
            && (sorted != [] ==> out != [] && out[|out| - 1].first <= sorted[|sorted| - 1].first)
    decreases |sorted|
  {
    hide Merge;
    hide Chained;
    hide Coalesced;
    if sorted == [] {
      CoalescedNothing(n);
      assert Chained([]) by { ChainedNothing(); }
    } else {
      var k := |sorted| - 1;
      var front, r := sorted[..k], sorted[k];
      assert sorted == front + [r];
      CoalescedShape(front, n);
      CoalescedStep(front, r, n);
      var acc := Coalesced(front, n);
      assert acc != [] ==> acc[|acc| - 1].first <= front[|front| - 1].first <= r.first;
      MergeChains(acc, r);
      MergeWithin(acc, r, n);
    }
  }

  lemma ChainedNothing()
    ensures Chained([])
  {
  }

  lemma {:induction false} CoalescedCovers(sorted: seq<Range>, n: int, pos: int)
    requires AllWithin(sorted, n) && SortedByFirst(sorted)
    ensures Covers(Coalesced(sorted, n), pos) <==> Covers(sorted, pos)
    decreases |sorted|
  {
    hide Merge;
    hide Covers;
    hide Coalesced;
    CoalescedNothing(n);
    if sorted != [] {
      var k := |sorted| - 1;
      var front, r := sorted[..k], sorted[k];
      assert sorted == front + [r];
      CoalescedCovers(front, n, pos);
      CoalescedShape(front, n);
      CoalescedStep(front, r, n);
      var acc := Coalesced(front, n);
      assert acc != [] ==> acc[|acc| - 1].first <= front[|front| - 1].first <= r.first;
      MergeCovers(acc, r, pos);
      CoversSnoc(front, r, pos);
    }
  }

  lemma {:induction false} ChainedSorted(ranges: seq<Range>, i: nat, j: nat, n: int)
    requires Chained(ranges) && AllWithin(ranges, n) && i < j < |ranges|
    ensures ranges[i].first <= ranges[j].first && ranges[i].last <= ranges[j].last
    decreases j - i
  {
    if i + 1 < j { ChainedSorted(ranges, i, j - 1, n); }
    assert Within(ranges[j - 1], n) && Within(ranges[j], n);
  }

  lemma SortKeeps(ranges: seq<Range>, sorted: seq<Range>, n: int)
    requires SortOf(ranges, sorted)
    ensures |sorted| == |ranges|
    ensures AllWithin(ranges, n) ==> AllWithin(sorted, n)
    ensures forall pos :: Covers(sorted, pos) <==> Covers(ranges, pos)
  {
    hide SortedByFirst;
    assert |ranges| == |multiset(ranges)| == |multiset(sorted)| == |sorted|;
    forall i | 0 <= i < |sorted| ensures sorted[i] in ranges { assert sorted[i] in multiset(sorted); }
    forall i | 0 <= i < |ranges| ensures ranges[i] in sorted { assert ranges[i] in multiset(ranges); }
  }

  /** Coalescing keeps the covered positions; the result is sorted, no longer than the input, and neighbours have a gap
      or share their start. This holds for every order the sort may leave. */
  lemma CoalescePreservesCoverage(ranges: seq<Range>, sorted: seq<Range>, n: int)
    requires AllWithin(ranges, n) && SortOf(ranges, sorted)
    ensures var out := Coalesced(sorted, n);
            && (forall pos :: Covers(out, pos) <==> Covers(ranges, pos))
            && AllWithin(out, n) && SortedByFirst(out) && Chained(out)
            && |out| <= |ranges| && (ranges != [] ==> out != [])
  {
    hide Coalesced;
    SortKeeps(ranges, sorted, n);
    CoalescedShape(sorted, n);
    var out := Coalesced(sorted, n);
    forall pos ensures Covers(out, pos) <==> Covers(ranges, pos) { CoalescedCovers(sorted, n, pos); }
    forall i, j | 0 <= i < j < |out| ensures out[i].first <= out[j].first { ChainedSorted(out, i, j, n); }
  }

  // ---------- Distinct ranges ----------

  /** The end of the last group is that of a range in it. */
  ghost predicate Attained(sorted: seq<Range>, r: Range) {
    exists j :: 0 <= j < |sorted| && sorted[j].last == r.last && sorted[j].first >= r.first
  }

  lemma {:induction false} CoalescedApart(sorted: seq<Range>, n: int)
    requires AllWithin(sorted, n) && SortedByFirst(sorted) && Distinct(sorted)
    ensures var out := Coalesced(sorted, n);
            && (forall i :: 0 <= i < |out| - 1 ==> out[i].last + 1 < out[i + 1].first)
            && (out != [] ==> Attained(sorted, out[|out| - 1]))
    decreases |sorted|
  {
    hide Merge;
    hide Chained;
    hide Coalesced;
    hide Attained;
    CoalescedNothing(n);
    if sorted != [] {
      var k := |sorted| - 1;
      var front, r := sorted[..k], sorted[k];
      assert sorted == front + [r];
      CoalescedApart(front, n);
      CoalescedShape(front, n);
      CoalescedStep(front, r, n);
      var acc := Coalesced(front, n);
      assert forall i :: 0 <= i < k ==> front[i] == sorted[i];
      if acc == [] {
        MergeFirst(r);
        AttainedLast(front, r);
      } else {
        assert acc[|acc| - 1].first <= front[|front| - 1].first <= r.first;
        MergeApart(front, acc, r);
      }
    }
  }

  lemma AttainedLast(front: seq<Range>, r: Range)
    ensures Attained(front + [r], r)
  {
    assert (front + [r])[|front|] == r;
  }

  lemma MergeFirst(r: Range)
    ensures Merge([], r) == [r]
  {
  }

  lemma MergeApart(front: seq<Range>, acc: seq<Range>, r: Range)
    requires acc != [] && Attained(front, acc[|acc| - 1]) && acc[|acc| - 1].first <= r.first <= r.last
    requires forall i :: 0 <= i < |front| ==> front[i].first <= r.first && front[i] != r
    requires forall i :: 0 <= i < |acc| - 1 ==> acc[i].last + 1 < acc[i + 1].first
    ensures var out := Merge(acc, r);
            && (forall i :: 0 <= i < |out| - 1 ==> out[i].last + 1 < out[i + 1].first)
            && out != [] && Attained(front + [r], out[|out| - 1])
  {
    var prev := acc[|acc| - 1];
    var j :| 0 <= j < |front| && front[j].last == prev.last && front[j].first >= prev.first;
    assert front[j] != r && front[j].first <= r.first;
    assert r != prev;
    var all := front + [r];
    assert all[j] == front[j] && all[|front|] == r;
  }

  lemma {:induction false} NeighboursApart(out: seq<Range>, i: nat, j: nat, n: int)
    requires AllWithin(out, n) && i < j < |out|
    requires forall i :: 0 <= i < |out| - 1 ==> out[i].last + 1 < out[i + 1].first
    ensures out[i].last + 1 < out[j].first
    decreases j - i
  {
    if i + 1 < j {
      NeighboursApart(out, i, j - 1, n);
      assert Within(out[j - 1], n);
    }
  }

  lemma SortDistinct(ranges: seq<Range>, sorted: seq<Range>)
    requires Distinct(ranges) && SortOf(ranges, sorted)
    ensures Distinct(sorted)
  {
    hide SortedByFirst;
    forall i, j | 0 <= i < j < |sorted| ensures sorted[i] != sorted[j] {
      if sorted[i] == sorted[j] {
        TwiceIn(sorted, i, j);
        OnceIn(ranges, sorted[i]);
      }
    }
  }

  lemma TwiceIn(ranges: seq<Range>, i: nat, j: nat)
    requires i < j < |ranges| && ranges[i] == ranges[j]
    ensures multiset(ranges)[ranges[i]] >= 2
  {
    var a, b := ranges[..j], ranges[j..];
    assert ranges == a + b;
    assert a[i] in multiset(a) && b[0] in multiset(b);
  }

  lemma {:induction false} OnceIn(ranges: seq<Range>, r: Range)
    requires Distinct(ranges)
    ensures multiset(ranges)[r] <= 1
    decreases |ranges|
  {
    if ranges != [] {
      var k := |ranges| - 1;
      assert ranges == ranges[..k] + [ranges[k]];
      OnceIn(ranges[..k], r);
      assert ranges[k] !in ranges[..k];
      assert ranges[k] !in multiset(ranges[..k]);
    }
  }

  // ---------- Lengths ----------

  function Length(r: Range): int { r.last - r.first + 1 }

  function TotalLength(ranges: seq<Range>): int
    decreases |ranges|
  {
    if ranges == [] then 0 else TotalLength(ranges[..|ranges| - 1]) + Length(ranges[|ranges| - 1])
  }

  ghost function Positions(ranges: seq<Range>, n: int): set<int> {
    set pos | 0 <= pos < n && Covers(ranges, pos)
  }

  ghost function Interval(r: Range): set<int> { set pos | r.first <= pos <= r.last && In(r, pos) }

  lemma {:induction false} IntervalSize(r: Range)
    requires r.first <= r.last + 1
    ensures |Interval(r)| == Length(r)
    decreases Length(r)
  {
    if r.first > r.last {
      assert Interval(r) == {};
    } else {
      var less := Range(r.first, r.last - 1);
      IntervalSize(less);
      assert Interval(r) == Interval(less) + {r.last};
    }
  }

  lemma BelowCovers(ranges: seq<Range>, first: int)
    requires forall i :: 0 <= i < |ranges| ==> ranges[i].last + 1 < first
    ensures forall pos :: pos >= first ==> !Covers(ranges, pos)
  {
  }

  lemma {:induction false} ApartLengths(out: seq<Range>, n: int)
    requires Apart(out) && AllWithin(out, n)
    ensures TotalLength(out) == |Positions(out, n)|
    decreases |out|
  {
    hide Covers;
    if out == [] {
      assert Positions(out, n) == {} by { forall pos ensures !Covers(out, pos) { CoversNothing(pos); } }
    } else {
      var k := |out| - 1;
      var front, r := out[..k], out[k];
      assert out == front + [r];
      ApartLengths(front, n);
      IntervalSize(r);
      var here := Interval(r);
      assert Within(r, n);
      forall pos ensures pos in Positions(out, n) <==> pos in Positions(front, n) || pos in here {
        CoversSnoc(front, r, pos);
      }
      assert Positions(out, n) == Positions(front, n) + here;
      BelowCovers(front, r.first);
      assert Positions(front, n) !! here;
    }
  }

  /** For distinct ranges the result is pairwise disjoint, and its lengths sum to the number of covered positions. */
  lemma DistinctCoalesceApart(ranges: seq<Range>, sorted: seq<Range>, n: int)
    requires AllWithin(ranges, n) && SortOf(ranges, sorted) && Distinct(ranges)
    ensures var out := Coalesced(sorted, n);
            Apart(out) && TotalLength(out) == |Positions(ranges, n)|
  {
    hide Coalesced;
    hide Covers;
    hide Chained;
    SortKeeps(ranges, sorted, n);
    SortDistinct(ranges, sorted);
    CoalescedApart(sorted, n);
    CoalescePreservesCoverage(ranges, sorted, n);
    var out := Coalesced(sorted, n);
    forall i, j | 0 <= i < j < |out| ensures out[i].last + 1 < out[j].first { NeighboursApart(out, i, j, n); }
    ApartLengths(out, n);
    assert Positions(out, n) == Positions(ranges, n);
  }

  // ---------- Does the order of the sort matter? ----------

  lemma FirstCovered(a: seq<Range>, n: int)
    requires Apart(a) && AllWithin(a, n) && a != []
    ensures Covers(a, a[0].first) && Covers(a, a[0].last) && !Covers(a, a[0].last + 1)
    ensures forall pos :: Covers(a, pos) ==> pos >= a[0].first
    ensures forall pos :: Covers(a[1..], pos) <==> Covers(a, pos) && pos > a[0].last
  {
    assert In(a[0], a[0].first) && In(a[0], a[0].last);
    forall i | 0 <= i < |a| ensures i > 0 ==> a[0].last + 1 < a[i].first <= a[i].last {
      assert Within(a[i], n);
    }
    forall pos ensures Covers(a[1..], pos) <==> Covers(a, pos) && pos > a[0].last {
      if Covers(a[1..], pos) {
        var i :| 0 <= i < |a| - 1 && In(a[1..][i], pos);
        assert a[1..][i] == a[i + 1] && In(a[i + 1], pos);
      }
      if Covers(a, pos) && pos > a[0].last {
        var i :| 0 <= i < |a| && In(a[i], pos);
        assert i > 0 && a[1..][i - 1] == a[i];
      }
    }
  }

  lemma {:induction false} ApartUnique(a: seq<Range>, b: seq<Range>, n: int)
    requires Apart(a) && AllWithin(a, n) && Apart(b) && AllWithin(b, n)
    requires forall pos :: Covers(a, pos) <==> Covers(b, pos)
    ensures a == b
    decreases |a|
  {
    hide Covers;
    if a == [] || b == [] {
      if b != [] { FirstCovered(b, n); CoversNothing(b[0].first); }
      if a != [] { FirstCovered(a, n); CoversNothing(a[0].first); }
    } else {
      FirstCovered(a, n);
      FirstCovered(b, n);
      assert a[0].first == b[0].first;
      FirstEndsEqual(a, b, n);
      ApartUnique(a[1..], b[1..], n);
      assert a == [a[0]] + a[1..] && b == [b[0]] + b[1..];
    }
  }

  lemma FirstEndsEqual(a: seq<Range>, b: seq<Range>, n: int)
    requires AllWithin(a, n) && AllWithin(b, n) && a != [] && b != [] && a[0].first == b[0].first
    requires forall pos :: Covers(a, pos) <==> Covers(b, pos)
    requires !Covers(a, a[0].last + 1) && !Covers(b, b[0].last + 1)
    ensures a[0].last == b[0].last
  {
    if a[0].last < b[0].last { assert In(b[0], a[0].last + 1); }
    if b[0].last < a[0].last { assert In(a[0], b[0].last + 1); }
  }

  /** Not for distinct ranges: the result is then the only list of ranges apart that covers the same positions. */
  lemma SortOrderIrrelevant(ranges: seq<Range>, s: seq<Range>, t: seq<Range>, n: int)
    requires AllWithin(ranges, n) && SortOf(ranges, s) && SortOf(ranges, t) && Distinct(ranges)
    ensures Coalesced(s, n) == Coalesced(t, n)
  {
    hide Coalesced;
    hide Covers;
    DistinctCoalesceApart(ranges, s, n);
    DistinctCoalesceApart(ranges, t, n);
    CoalescePreservesCoverage(ranges, s, n);
    CoalescePreservesCoverage(ranges, t, n);
    ApartUnique(Coalesced(s, n), Coalesced(t, n), n);
  }

  lemma CoalescedNothing(n: int)
    ensures Coalesced([], n) == []
  {
  }
}
