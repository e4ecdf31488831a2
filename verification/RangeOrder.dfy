/** `std::sort` leaves the order of ranges with the same start open: exactly when that shows in the coalesced list. */
module RangeOrder {
  import opened RangeHeader
  import opened RangeCheck
  import opened RangeCoverage

  /** Two orders that the sort may leave give different lists. */
  ghost predicate OrderMatters(ranges: seq<Range>, n: int) {
    exists s, t :: SortOf(ranges, s) && SortOf(ranges, t) && Coalesced(s, n) != Coalesced(t, n)
  }

  /** `r` is given twice, a longer range starts with it, and no range before it reaches up to its start. */
  ghost predicate ShowsAt(ranges: seq<Range>, r: Range) {
    && multiset(ranges)[r] >= 2
    && (exists i :: 0 <= i < |ranges| && ranges[i].first == r.first && ranges[i].last > r.last)
    && (forall i :: 0 <= i < |ranges| ==> !(ranges[i].first < r.first <= ranges[i].last + 1))
  }

  // ---------- Merging a list into another ----------

  function MergeAll(acc: seq<Range>, ranges: seq<Range>): seq<Range>
    decreases |ranges|
  {
    if ranges == [] then acc
    else Merge(MergeAll(acc, ranges[..|ranges| - 1]), ranges[|ranges| - 1])
  }

  lemma MergeAllSnoc(acc: seq<Range>, ranges: seq<Range>, r: Range)
    ensures MergeAll(acc, ranges + [r]) == Merge(MergeAll(acc, ranges), r)
  {
    hide Merge;
    assert (ranges + [r])[..|ranges|] == ranges;
  }

  lemma {:induction false} MergeAllConcat(acc: seq<Range>, a: seq<Range>, b: seq<Range>)
    ensures MergeAll(acc, a + b) == MergeAll(MergeAll(acc, a), b)
    decreases |b|
  {
    hide Merge;
    if b == [] {
      assert a + b == a;
    } else {
      var k := |b| - 1;
      assert b == b[..k] + [b[k]] && a + b == (a + b[..k]) + [b[k]];
      MergeAllConcat(acc, a, b[..k]);
      MergeAllSnoc(acc, a + b[..k], b[k]);
      MergeAllSnoc(MergeAll(acc, a), b[..k], b[k]);
    }
  }

  lemma {:induction false} CoalescedConcat(a: seq<Range>, b: seq<Range>, n: int)
    requires AllWithin(a + b, n)
    ensures Coalesced(a + b, n) == MergeAll(Coalesced(a, n), b)
    decreases |b|
  {
    hide Merge;
    hide Coalesced;
    hide MergeAll;
    if b == [] {
      assert a + b == a;
      MergeAllNothing(Coalesced(a, n));
    } else {
      var k := |b| - 1;
      var front := a + b[..k];
      assert b == b[..k] + [b[k]] && a + b == front + [b[k]];
      assert (a + b)[|a| + k] == b[k];
      assert forall i :: 0 <= i < |front| ==> front[i] == (a + b)[i];
      CoalescedConcat(a, b[..k], n);
      CoalescedStep(front, b[k], n);
      MergeAllSnoc(Coalesced(a, n), b[..k], b[k]);
    }
  }

  lemma MergeAllNothing(acc: seq<Range>)
    ensures MergeAll(acc, []) == acc
  {
  }

  /** Merging replaces the last range at most, by a longer one. */
  lemma {:induction false} MergeAllKeeps(acc: seq<Range>, ranges: seq<Range>, i: nat)
    requires i < |acc|
    ensures var out := MergeAll(acc, ranges);
            |acc| <= |out| && out[i].last >= acc[i].last && (i < |acc| - 1 ==> out[i] == acc[i])
    decreases |ranges|
  {
    if ranges != [] { MergeAllKeeps(acc, ranges[..|ranges| - 1], i); }
  }

  /** The last range reaches as far as any range of the input, and no farther. */
  lemma {:induction false} LastReach(sorted: seq<Range>, n: int) returns (j: nat)
    requires AllWithin(sorted, n) && SortedByFirst(sorted) && sorted != []
    ensures j < |sorted|
    ensures var out := Coalesced(sorted, n);
            && out != [] && sorted[j].last == out[|out| - 1].last
            && forall i :: 0 <= i < |sorted| ==> sorted[i].last <= out[|out| - 1].last
    decreases |sorted|
  {
    hide Coalesced;
    hide Merge;
    var k := |sorted| - 1;
    var front, r := sorted[..k], sorted[k];
    assert sorted == front + [r];
    CoalescedStep(front, r, n);
    if front == [] {
      CoalescedNothing(n);
      MergeFirst(r);
      j := 0;
    } else {
      var i := LastReach(front, n);
      var acc := Coalesced(front, n);
      MergeReach(acc, r);
      j := if r.last > sorted[i].last then k else i;
      assert forall m :: 0 <= m < k ==> sorted[m] == front[m];
    }
  }

  lemma MergeReach(acc: seq<Range>, r: Range)
    requires acc != [] && r.first <= r.last
    ensures var out := Merge(acc, r);
            var prev := acc[|acc| - 1];
            out != [] && out[|out| - 1].last == if r.last > prev.last then r.last else prev.last
  {
  }

  // ---------- One block of ranges with the same start ----------

  ghost predicate SameStart(block: seq<Range>, f: int) {
    forall i :: 0 <= i < |block| ==> block[i].first == f <= block[i].last
  }

  function MaxLast(block: seq<Range>): int
    requires block != []
    decreases |block|
  {
    var e := block[|block| - 1].last;
    if |block| == 1 then e
    else
      var m := MaxLast(block[..|block| - 1]);
      if e > m then e else m
  }

  lemma {:induction false} MaxLastIs(block: seq<Range>) returns (j: nat)
    requires block != []
    ensures j < |block| && block[j].last == MaxLast(block)
    ensures forall i :: 0 <= i < |block| ==> block[i].last <= MaxLast(block)
    decreases |block|
  {
    var k := |block| - 1;
    if k == 0 {
      j := 0;
    } else {
      var i := MaxLastIs(block[..k]);
      j := if block[k].last > MaxLast(block[..k]) then k else i;
    }
  }

  /** Nothing before reaches the start of the block. */
  predicate Detached(acc: seq<Range>, f: int) {
    acc == [] || acc[|acc| - 1].last + 1 < f
  }

  function Copies(count: nat, r: Range): (c: seq<Range>)
    ensures |c| == count && forall i :: 0 <= i < count ==> c[i] == r
  {
    seq(count, _ => r)
  }

  /** Only the longest range may occur more than once. */
  ghost predicate ShorterOnce(block: seq<Range>)
    requires block != []
  {
    forall i :: 0 <= i < |block| && block[i].last < MaxLast(block) ==> multiset(block)[block[i]] <= 1
  }

  lemma MergeDetached(acc: seq<Range>, r: Range)
    requires Detached(acc, r.first)
    ensures Merge(acc, r) == acc + [r]
  {
    if acc == [] { assert acc + [r] == [r]; }
  }

  lemma MergeIntoCopies(acc: seq<Range>, count: nat, prev: Range, e: Range)
    requires count > 0 && e.first == prev.first <= prev.last
    ensures e.last < prev.last ==> Merge(acc + Copies(count, prev), e) == acc + Copies(count, prev)
    ensures e.last == prev.last ==> Merge(acc + Copies(count, prev), e) == acc + Copies(count + 1, prev)
    ensures e.last > prev.last && count == 1 ==> Merge(acc + Copies(count, prev), e) == acc + Copies(1, e)
  {
    var all := acc + Copies(count, prev);
    var k := |all| - 1;
    assert all[k] == prev;
    assert all[..k] + [prev] == all;
    assert e == prev ==> all + [e] == acc + Copies(count + 1, prev);
    assert count == 1 ==> all[..k] == acc && [e] == Copies(1, e);
  }

  lemma CountSnoc(block: seq<Range>, e: Range, x: Range)
    ensures multiset(block + [e])[x] == multiset(block)[x] + if x == e then 1 else 0
  {
  }

  lemma ShorterOnceFront(block: seq<Range>, e: Range)
    requires block != [] && ShorterOnce(block + [e])
    ensures ShorterOnce(block)
    ensures e.last > MaxLast(block) ==> forall x :: multiset(block)[x] <= 1
  {
    var all := block + [e];
    assert all[..|block|] == block;
    var j := MaxLastIs(block);
    forall i | 0 <= i < |block| && (block[i].last < MaxLast(block) || e.last > MaxLast(block))
      ensures multiset(block)[block[i]] <= 1
    {
      assert all[i] == block[i];
      CountSnoc(block, e, block[i]);
    }
    if e.last > MaxLast(block) {
      forall x ensures multiset(block)[x] <= 1 {
        if x in multiset(block) { var i :| 0 <= i < |block| && block[i] == x; }
      }
    }
  }

  lemma SameStartFront(block: seq<Range>, e: Range, f: int)
    requires SameStart(block + [e], f)
    ensures SameStart(block, f) && e.first == f <= e.last
  {
    var all := block + [e];
    assert all[|block|] == e;
    assert forall i :: 0 <= i < |block| ==> all[i] == block[i];
  }

  lemma DetachedOne(acc: seq<Range>, e: Range)
    requires Detached(acc, e.first)
    ensures MaxLast([e]) == e.last && multiset([e])[e] == 1 && MergeAll(acc, [e]) == acc + Copies(1, e)
  {
    hide Merge;
    var none: seq<Range> := [];
    assert none + [e] == [e];
    MergeAllSnoc(acc, none, e);
    MergeAllNothing(acc);
    MergeDetached(acc, e);
    assert Copies(1, e) == [e];
  }

  /** A detached block leaves as many copies of its longest range as there are. */
  lemma {:induction false} DetachedBlock(acc: seq<Range>, block: seq<Range>, f: int)
    requires block != [] && SameStart(block, f) && Detached(acc, f) && ShorterOnce(block)
    ensures var longest := Range(f, MaxLast(block));
            multiset(block)[longest] > 0 && MergeAll(acc, block) == acc + Copies(multiset(block)[longest], longest)
    decreases |block|
  {
    hide Merge;
    hide MergeAll;
    hide MaxLast;
    hide SameStart;
    hide ShorterOnce;
    hide Detached;
    var k := |block| - 1;
    var front, e := block[..k], block[k];
    assert block == front + [e];
    SameStartFront(front, e, f);
    if front == [] {
      assert block == [e] && e == Range(f, e.last);
      DetachedOne(acc, e);
    } else {
      ShorterOnceFront(front, e);
      DetachedBlock(acc, front, f);
      MergeAllSnoc(acc, front, e);
      DetachedStep(acc, front, e, f);
    }
  }

  /** One more range of the block. */
  lemma DetachedStep(acc: seq<Range>, front: seq<Range>, e: Range, f: int)
    requires front != [] && SameStart(front, f) && e.first == f
    requires var longest := Range(f, MaxLast(front));
             multiset(front)[longest] > 0 && (e.last > longest.last ==> multiset(front)[longest] <= 1)
    ensures var before := Range(f, MaxLast(front));
            var longest := Range(f, MaxLast(front + [e]));
            && multiset(front + [e])[longest] > 0
            && Merge(acc + Copies(multiset(front)[before], before), e) == acc + Copies(multiset(front + [e])[longest], longest)
  {
    hide Merge;
    var all := front + [e];
    assert all[..|front|] == front && all[|front|] == e;
    var before := Range(f, MaxLast(front));
    var count := multiset(front)[before];
    var j := MaxLastIs(front);
    assert MaxLast(all) == if e.last > MaxLast(front) then e.last else MaxLast(front);
    hide MaxLast;
    assert front[j].first == f <= front[j].last;
    MergeIntoCopies(acc, count, before, e);
    CountSnoc(front, e, before);
    if e.last > before.last {
      CountSnoc(front, e, e);
      assert e !in front;
      assert e !in multiset(front);
    }
  }

  /** A block that is reached from before only extends the last range. */
  lemma {:induction false} AttachedBlock(acc: seq<Range>, block: seq<Range>, f: int)
    requires block != [] && SameStart(block, f) && acc != []
    requires acc[|acc| - 1].first < f <= acc[|acc| - 1].last + 1
    ensures var prev := acc[|acc| - 1];
            MergeAll(acc, block) ==
            acc[..|acc| - 1] + [Range(prev.first, if MaxLast(block) > prev.last then MaxLast(block) else prev.last)]
    decreases |block|
  {
    hide MergeAll;
    var k := |block| - 1;
    var front, e := block[..k], block[k];
    assert block == front + [e];
    MergeAllSnoc(acc, front, e);
    if front == [] {
      MergeAllNothing(acc);
    } else {
      AttachedBlock(acc, front, f);
    }
  }

  // ---------- Sorted lists by blocks ----------

  /** The last block of a sorted list. */
  lemma {:induction false} LastBlock(sorted: seq<Range>) returns (k: nat)
    requires SortedByFirst(sorted) && sorted != []
    ensures k < |sorted|
    ensures var f := sorted[|sorted| - 1].first;
            && (forall i :: 0 <= i < k ==> sorted[i].first < f)
            && (forall i :: k <= i < |sorted| ==> sorted[i].first == f)
  {
    k := |sorted| - 1;
    var f := sorted[k].first;
    while k > 0 && sorted[k - 1].first == f
      invariant 0 <= k < |sorted|
      invariant forall i :: k <= i < |sorted| ==> sorted[i].first == f
    {
      k := k - 1;
    }
  }

  /** Lists with the same elements, cut at the same start, have the same elements before and behind. */
  lemma SameCut(s: seq<Range>, i: nat, t: seq<Range>, j: nat, f: int)
    requires multiset(s) == multiset(t) && i <= |s| && j <= |t|
    requires (forall k :: 0 <= k < i ==> s[k].first < f) && (forall k :: i <= k < |s| ==> s[k].first >= f)
    requires (forall k :: 0 <= k < j ==> t[k].first < f) && (forall k :: j <= k < |t| ==> t[k].first >= f)
    ensures multiset(s[..i]) == multiset(t[..j]) && multiset(s[i..]) == multiset(t[j..])
  {
    var a, b, c, d := multiset(s[..i]), multiset(t[..j]), multiset(s[i..]), multiset(t[j..]);
    forall x: Range ensures a[x] == b[x] && c[x] == d[x] {
      CutCounts(s, i, f, x);
      CutCounts(t, j, f, x);
    }
    assert a == b && c == d;
  }

  lemma CutCounts(s: seq<Range>, i: nat, f: int, x: Range)
    requires i <= |s|
    requires (forall k :: 0 <= k < i ==> s[k].first < f) && (forall k :: i <= k < |s| ==> s[k].first >= f)
    ensures multiset(s[..i])[x] == if x.first < f then multiset(s)[x] else 0
    ensures multiset(s[i..])[x] == if x.first < f then 0 else multiset(s)[x]
  {
    assert s == s[..i] + s[i..];
    if x.first < f { assert x !in s[i..]; } else { assert x !in s[..i]; }
  }

  lemma SameMax(s: seq<Range>, t: seq<Range>)
    requires s != [] && multiset(s) == multiset(t)
    ensures t != [] && MaxLast(s) == MaxLast(t)
  {
    assert |s| == |multiset(s)| == |multiset(t)| == |t|;
    var i := MaxLastIs(s);
    var j := MaxLastIs(t);
    assert s[i] in multiset(t) && t[j] in multiset(s);
  }

  // ---------- Where nothing shows ----------

  ghost predicate Shows(ranges: seq<Range>) {
    exists r :: ShowsAt(ranges, r)
  }

  lemma ShowsFewer(all: seq<Range>, k: nat, f: int)
    requires k <= |all| && !Shows(all)
    requires (forall i :: 0 <= i < k ==> all[i].first < f) && (forall i :: k <= i < |all| ==> all[i].first >= f)
    ensures !Shows(all[..k])
  {
    if Shows(all[..k]) {
      var r :| ShowsAt(all[..k], r);
      assert r in multiset(all[..k]);
      CutCounts(all, k, f, r);
      var i :| 0 <= i < k && all[..k][i].first == r.first && all[..k][i].last > r.last;
      assert all[i].first == r.first && all[i].last > r.last;
      forall j | 0 <= j < |all| ensures !(all[j].first < r.first <= all[j].last + 1) {
        if j < k { assert all[..k][j] == all[j]; }
      }
      assert ShowsAt(all, r);
      assert false;
    }
  }

  /** In a detached last block that does not show, shorter ranges occur once. */
  lemma LastBlockOnce(all: seq<Range>, k: nat, acc: seq<Range>, f: int)
    requires k < |all| && !Shows(all) && Detached(acc, f)
    requires Reached(all, k, acc) && forall i :: 0 <= i < k ==> all[i].first < f
    requires forall i :: k <= i < |all| ==> all[i].first == f
    ensures ShorterOnce(all[k..])
  {
    var block := all[k..];
    var j := MaxLastIs(block);
    forall i | 0 <= i < |block| && block[i].last < MaxLast(block) ensures multiset(block)[block[i]] <= 1 {
      var r := block[i];
      CutCounts(all, k, f, r);
      if multiset(block)[r] >= 2 {
        assert all[k + j].first == r.first && all[k + j].last > r.last;
        assert ShowsAt(all, r);
        assert false;
      }
    }
  }

  lemma SliceWithin(all: seq<Range>, k: nat, n: int)
    requires k <= |all| && AllWithin(all, n)
    ensures AllWithin(all[..k], n) && AllWithin(all[k..], n)
  {
  }

  lemma SliceSorted(all: seq<Range>, k: nat)
    requires k <= |all| && SortedByFirst(all)
    ensures SortedByFirst(all[..k]) && SortedByFirst(all[k..])
  {
  }

  lemma {:induction false} SameResult(s: seq<Range>, t: seq<Range>, n: int)
    requires AllWithin(s, n) && AllWithin(t, n) && SortedByFirst(s) && SortedByFirst(t)
    requires multiset(s) == multiset(t) && !Shows(s) && !Shows(t)
    ensures Coalesced(s, n) == Coalesced(t, n)
    decreases |s|
  {
    hide Coalesced;
    hide MergeAll;
    hide Shows;
    assert |s| == |multiset(s)| == |multiset(t)| == |t|;
    if s != [] {
      var i := LastBlock(s);
      var j := LastBlock(t);
      var f := s[|s| - 1].first;
      SameLastStart(s, t);
      SameCut(s, i, t, j, f);
      ShowsFewer(s, i, f);
      ShowsFewer(t, j, f);
      SliceWithin(s, i, n);
      SliceWithin(t, j, n);
      SliceSorted(s, i);
      SliceSorted(t, j);
      hide AllWithin;
      hide SortedByFirst;
      hide MaxLast;
      SameResult(s[..i], t[..j], n);
      var acc := Coalesced(s[..i], n);
      assert s == s[..i] + s[i..] && t == t[..j] + t[j..];
      CoalescedConcat(s[..i], s[i..], n);
      CoalescedConcat(t[..j], t[j..], n);
      LastBlockResult(s, i, acc, n);
      LastBlockResult(t, j, acc, n);
      SameMax(s[i..], t[j..]);
    }
  }

  lemma SameLastStart(s: seq<Range>, t: seq<Range>)
    requires SortedByFirst(s) && SortedByFirst(t) && s != [] && |s| == |t| && multiset(s) == multiset(t)
    ensures s[|s| - 1].first == t[|t| - 1].first
  {
    var a, b := s[|s| - 1], t[|t| - 1];
    assert a in multiset(t) && b in multiset(s);
  }

  /** The first `k` ranges end no later than the last one of the list. */
  ghost predicate Reached(all: seq<Range>, k: nat, acc: seq<Range>) {
    forall i :: 0 <= i < k && i < |all| ==> acc != [] && all[i].last <= acc[|acc| - 1].last
  }

  lemma FrontReach(all: seq<Range>, k: nat, acc: seq<Range>, n: int)
    requires AllWithin(all, n) && SortedByFirst(all) && k < |all|
    requires forall i :: 0 <= i < k ==> all[i].first < all[|all| - 1].first
    requires acc == Coalesced(all[..k], n)
    ensures Reached(all, k, acc) && (acc != [] ==> acc[|acc| - 1].first < all[|all| - 1].first)
  {
    hide Coalesced;
    hide Chained;
    var front := all[..k];
    SliceWithin(all, k, n);
    SliceSorted(all, k);
    hide SortedByFirst;
    hide AllWithin;
    if front == [] { CoalescedNothing(n); } else {
      var j := LastReach(front, n);
      CoalescedShape(front, n);
      assert forall i :: 0 <= i < k ==> all[i] == front[i];
    }
  }

  /** The list after the last block depends on what was before it and on the elements of the block alone. */
  lemma LastBlockResult(all: seq<Range>, k: nat, acc: seq<Range>, n: int)
    requires AllWithin(all, n) && SortedByFirst(all) && !Shows(all) && k < |all|
    requires var f := all[|all| - 1].first;
             && (forall i :: 0 <= i < k ==> all[i].first < f)
             && (forall i :: k <= i < |all| ==> all[i].first == f)
    requires acc == Coalesced(all[..k], n)
    ensures var f, block := all[|all| - 1].first, all[k..];
            var longest := Range(f, MaxLast(block));
            MergeAll(acc, block) ==
            if Detached(acc, f) then acc + Copies(multiset(block)[longest], longest)
            else
              var prev := acc[|acc| - 1];
              acc[..|acc| - 1] + [Range(prev.first, if longest.last > prev.last then longest.last else prev.last)]
  {
    hide Coalesced;
    hide MergeAll;
    hide Shows;
    hide ShorterOnce;
    hide MaxLast;
    var f, block := all[|all| - 1].first, all[k..];
    FrontReach(all, k, acc, n);
    hide Reached;
    assert SameStart(block, f) by { assert forall i :: 0 <= i < |block| ==> block[i] == all[k + i] && Within(all[k + i], n); }
    hide SameStart;
    hide SortedByFirst;
    hide AllWithin;
    if Detached(acc, f) {
      LastBlockOnce(all, k, acc, f);
      DetachedBlock(acc, block, f);
    } else {
      AttachedBlock(acc, block, f);
    }
  }

  // ---------- Where it shows ----------

  function PlaceOf(sorted: seq<Range>, r: Range): (k: nat)
    ensures k <= |sorted|
    ensures forall i :: 0 <= i < k ==> sorted[i].first <= r.first
    ensures k < |sorted| ==> r.first < sorted[k].first
    decreases |sorted|
  {
    if sorted == [] || r.first < sorted[0].first then 0 else 1 + PlaceOf(sorted[1..], r)
  }

  lemma {:induction false} SortExists(ranges: seq<Range>) returns (sorted: seq<Range>)
    ensures SortOf(ranges, sorted)
    decreases |ranges|
  {
    hide SortedByFirst;
    if ranges == [] {
      sorted := [];
      SortedNothing();
    } else {
      var rest := SortExists(ranges[1..]);
      var k := PlaceOf(rest, ranges[0]);
      InsertedSorted(rest, ranges[0], k);
      InsertedPermutes(rest, ranges[0], k);
      sorted := rest[..k] + [ranges[0]] + rest[k..];
      assert ranges == [ranges[0]] + ranges[1..];
    }
  }

  /** Where the ranges that start at `f` or later, and after it, begin. */
  lemma CutSorted(sorted: seq<Range>, f: int) returns (i: nat, j: nat)
    requires SortedByFirst(sorted)
    ensures i <= j <= |sorted|
    ensures forall k :: 0 <= k < i ==> sorted[k].first < f
    ensures forall k :: i <= k < j ==> sorted[k].first == f
    ensures forall k :: j <= k < |sorted| ==> sorted[k].first > f
  {
    j := PlaceOf(sorted, Range(f, f));
    i := j;
    while i > 0 && sorted[i - 1].first == f
      invariant 0 <= i <= j
      invariant forall k :: i <= k < j ==> sorted[k].first == f
    {
      i := i - 1;
    }
  }

  /** The ranges that start at `f` may stand in any order. */
  lemma Reordered(sorted: seq<Range>, i: nat, j: nat, f: int, block: seq<Range>)
    requires SortedByFirst(sorted) && i <= j <= |sorted|
    requires forall k :: 0 <= k < i ==> sorted[k].first < f
    requires forall k :: i <= k < j ==> sorted[k].first == f
    requires forall k :: j <= k < |sorted| ==> sorted[k].first > f
    requires multiset(block) == multiset(sorted[i..j])
    ensures SortOf(sorted, sorted[..i] + block + sorted[j..])
  {
    forall k | 0 <= k < |block| ensures block[k].first == f {
      assert block[k] in multiset(sorted[i..j]);
    }
    assert |block| == |multiset(block)| == j - i;
    var all := sorted[..i] + block + sorted[j..];
    assert sorted == sorted[..i] + sorted[i..j] + sorted[j..];
    assert multiset(all) == multiset(sorted);
    forall a, b | 0 <= a < b < |all| ensures all[a].first <= all[b].first {
      assert a < i ==> all[a] == sorted[a];
      assert b >= j ==> all[b] == sorted[b];
      assert i <= a < j ==> all[a] == block[a - i];
      assert i <= b < j ==> all[b] == block[b - i];
      assert a >= j ==> all[a] == sorted[a];
      assert b < i ==> all[b] == sorted[b];
    }
  }

  lemma ToFront(block: seq<Range>, m: nat) returns (rest: seq<Range>)
    requires m < |block|
    ensures multiset([block[m]] + rest) == multiset(block)
  {
    rest := block[..m] + block[m + 1..];
    assert block == block[..m] + [block[m]] + block[m + 1..];
  }

  lemma TwoToFront(block: seq<Range>, r: Range) returns (rest: seq<Range>)
    requires multiset(block)[r] >= 2
    ensures multiset([r, r] + rest) == multiset(block)
  {
    var m :| 0 <= m < |block| && block[m] == r;
    var one := ToFront(block, m);
    assert multiset([r] + one)[r] == 1 + multiset(one)[r];
    var k :| 0 <= k < |one| && one[k] == r;
    rest := ToFront(one, k);
    assert [r, r] + rest == [r] + ([r] + rest);
    assert multiset([r] + one) == multiset{r} + multiset(one);
    assert multiset([r] + ([r] + rest)) == multiset{r} + multiset([r] + rest);
  }

  /** What the position behind the ranges before the block holds in the end. */
  lemma FirstOfBlock(before: seq<Range>, head: seq<Range>, tail: seq<Range>, n: int)
    requires AllWithin(before + (head + tail), n) && head != []
    requires Detached(Coalesced(before, n), head[0].first)
    requires |head| == 1 || (|head| == 2 && head[1] == head[0])
    ensures var out, k := Coalesced(before + (head + tail), n), |Coalesced(before, n)|;
            k < |out| && out[k].last >= head[0].last && (|head| == 2 ==> out[k] == head[0])
  {
    hide Coalesced;
    hide MergeAll;
    var acc := Coalesced(before, n);
    var r := head[0];
    CoalescedConcat(before, head + tail, n);
    MergeAllConcat(acc, head, tail);
    MergeAllNothing(acc);
    var none: seq<Range> := [];
    MergeAllSnoc(acc, none, r);
    MergeDetached(acc, r);
    assert none + [r] == [r];
    assert (before + (head + tail))[|before|] == r;
    if |head| == 1 {
      assert head == [r];
      MergeAllKeeps(acc + [r], tail, |acc|);
    } else {
      assert head == [r] + [r];
      MergeAllSnoc(acc, [r], r);
      MergeTwin(acc, r);
      MergeAllKeeps(acc + [r, r], tail, |acc|);
    }
  }

  lemma MergeTwin(acc: seq<Range>, r: Range)
    ensures Merge(acc + [r], r) == acc + [r, r]
  {
    assert (acc + [r])[|acc|] == r;
    assert acc + [r] + [r] == acc + [r, r];
  }

  lemma DetachedFrom(before: seq<Range>, f: int, n: int)
    requires AllWithin(before, n) && SortedByFirst(before)
    requires forall i :: 0 <= i < |before| ==> before[i].first < f && !(f <= before[i].last + 1)
    ensures Detached(Coalesced(before, n), f)
  {
    hide Coalesced;
    if before == [] { CoalescedNothing(n); } else { var j := LastReach(before, n); }
  }

  /** No range before the block reaches its start. */
  lemma BeforeDetached(ranges: seq<Range>, sorted: seq<Range>, i: nat, f: int, n: int)
    requires AllWithin(ranges, n) && SortOf(ranges, sorted) && i <= |sorted|
    requires forall k :: 0 <= k < i ==> sorted[k].first < f
    requires forall k :: 0 <= k < |ranges| ==> !(ranges[k].first < f <= ranges[k].last + 1)
    ensures Detached(Coalesced(sorted[..i], n), f)
  {
    hide Coalesced;
    SortKeeps(ranges, sorted, n);
    SliceWithin(sorted, i, n);
    SliceSorted(sorted, i);
    hide SortedByFirst;
    hide AllWithin;
    var before := sorted[..i];
    forall k | 0 <= k < i ensures before[k].first < f && !(f <= before[k].last + 1) {
      assert sorted[k] in multiset(ranges);
    }
    DetachedFrom(before, f, n);
  }

  /** One of the orders: with `head` first in its block. */
  lemma OrderWith(ranges: seq<Range>, sorted: seq<Range>, i: nat, j: nat, head: seq<Range>, rest: seq<Range>, n: int)
    returns (order: seq<Range>)
    requires AllWithin(ranges, n) && SortOf(ranges, sorted) && i <= j <= |sorted|
    requires head != [] && (|head| == 1 || (|head| == 2 && head[1] == head[0]))
    requires forall k :: 0 <= k < i ==> sorted[k].first < head[0].first
    requires forall k :: i <= k < j ==> sorted[k].first == head[0].first
    requires forall k :: j <= k < |sorted| ==> sorted[k].first > head[0].first
    requires forall k :: 0 <= k < |ranges| ==> !(ranges[k].first < head[0].first <= ranges[k].last + 1)
    requires multiset(head + rest) == multiset(sorted[i..j])
    ensures SortOf(ranges, order)
    ensures var out, k := Coalesced(order, n), |Coalesced(sorted[..i], n)|;
            k < |out| && out[k].last >= head[0].last && (|head| == 2 ==> out[k] == head[0])
  {
    hide Coalesced;
    hide SortedByFirst;
    hide AllWithin;
    hide Detached;
    var before, after := sorted[..i], sorted[j..];
    Reordered(sorted, i, j, head[0].first, head + rest);
    order := before + (head + rest) + after;
    FourAssoc(before, head, rest, after);
    SortKeeps(ranges, order, n);
    BeforeDetached(ranges, sorted, i, head[0].first, n);
    FirstOfBlock(before, head, rest + after, n);
  }

  lemma FourAssoc(a: seq<Range>, b: seq<Range>, c: seq<Range>, d: seq<Range>)
    ensures a + (b + c) + d == a + (b + (c + d))
  {
  }

  /** The longest range first, or the repeated one: two different lists. */
  lemma TwoOrders(ranges: seq<Range>, r: Range, n: int)
    requires AllWithin(ranges, n) && ShowsAt(ranges, r)
    ensures OrderMatters(ranges, n)
  {
    hide Coalesced;
    hide SortedByFirst;
    var sorted := SortExists(ranges);
    var i, j := CutSorted(sorted, r.first);
    BlockCounts(sorted, i, j, r.first, r);
    var block := sorted[i..j];
    var q := LongerIn(ranges, sorted, i, j, r);
    var rest := ToFront(block, q);
    var twice := TwoToFront(block, r);
    var s := OrderWith(ranges, sorted, i, j, [block[q]], rest, n);
    var t := OrderWith(ranges, sorted, i, j, [r, r], twice, n);
  }

  lemma LongerIn(ranges: seq<Range>, sorted: seq<Range>, i: nat, j: nat, r: Range) returns (q: nat)
    requires ShowsAt(ranges, r) && multiset(sorted) == multiset(ranges) && i <= j <= |sorted|
    requires forall k :: 0 <= k < i ==> sorted[k].first < r.first
    requires forall k :: j <= k < |sorted| ==> sorted[k].first > r.first
    ensures q < j - i && sorted[i..j][q].first == r.first && sorted[i..j][q].last > r.last
  {
    var p :| 0 <= p < |ranges| && ranges[p].first == r.first && ranges[p].last > r.last;
    assert ranges[p] in multiset(sorted);
    var m :| 0 <= m < |sorted| && sorted[m] == ranges[p];
    q := m - i;
  }

  lemma BlockCounts(sorted: seq<Range>, i: nat, j: nat, f: int, r: Range)
    requires i <= j <= |sorted| && r.first == f
    requires forall k :: 0 <= k < i ==> sorted[k].first < f
    requires forall k :: j <= k < |sorted| ==> sorted[k].first > f
    ensures multiset(sorted[i..j])[r] == multiset(sorted)[r]
  {
    assert sorted == sorted[..i] + sorted[i..j] + sorted[j..];
    assert r !in sorted[..i] && r !in sorted[j..];
  }

  // ---------- Main result ----------

  lemma SortShows(ranges: seq<Range>, sorted: seq<Range>)
    requires SortOf(ranges, sorted) && Shows(sorted)
    ensures Shows(ranges)
  {
    hide SortedByFirst;
    var r :| ShowsAt(sorted, r);
    var i :| 0 <= i < |sorted| && sorted[i].first == r.first && sorted[i].last > r.last;
    assert sorted[i] in multiset(ranges);
    var k :| 0 <= k < |ranges| && ranges[k] == sorted[i];
    forall j | 0 <= j < |ranges| ensures !(ranges[j].first < r.first <= ranges[j].last + 1) {
      assert ranges[j] in multiset(sorted);
    }
    assert ShowsAt(ranges, r);
  }

  /** The order that the sort leaves shows in the result exactly when some range is given twice, starts together with a
      longer one, and is not reached by a range that starts before it. */
  lemma OrderMattersIff(ranges: seq<Range>, n: int)
    requires AllWithin(ranges, n)
    ensures OrderMatters(ranges, n) <==> exists r :: ShowsAt(ranges, r)
  {
    hide Coalesced;
    hide SortedByFirst;
    hide ShowsAt;
    if r :| ShowsAt(ranges, r) {
      TwoOrders(ranges, r, n);
    } else {
      forall s, t | SortOf(ranges, s) && SortOf(ranges, t) ensures Coalesced(s, n) == Coalesced(t, n) {
        SortKeeps(ranges, s, n);
        SortKeeps(ranges, t, n);
        if Shows(s) { SortShows(ranges, s); }
        if Shows(t) { SortShows(ranges, t); }
        SameResult(s, t, n);
      }
    }
  }

  /** A request that passes the check and whose response depends on the order. */
  lemma SortOrderMatters()
    ensures var ranges := [Range(0, 5), Range(0, 5), Range(0, 9)];
            Normals(ranges, 10) == ranges && !Rejected(ranges, 10) && OrderMatters(ranges, 10)
  {
    var a, b := Range(0, 5), Range(0, 9);
    var ranges := [a, a, b];
    assert Normals(ranges, 10) == ranges;
    OverlapCountBelow(ranges);
    assert multiset(ranges)[a] == 2;
    assert ranges[2].first == a.first && ranges[2].last > a.last;
    assert ShowsAt(ranges, a);
    OrderMattersIff(ranges, 10);
  }
}
