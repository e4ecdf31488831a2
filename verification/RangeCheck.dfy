/** `range_error` and `coalesce_ranges`: validation, normalisation and merging of byte ranges (RFC 9110 sections
    14.1.2 and 14.2). */
module RangeCheck {
  import opened RangeHeader

  const RANGE_MAX_COUNT: nat := 1024

  // ---------- One range ----------

  /** What both functions make of a range over `n` octets. */
  function Normal(r: Range, n: int): Range {
    var a := if r.first == -1 && r.last == -1 then Range(0, n) else r;
    var b := if a.first == -1 then Range(n - a.last, n - 1) else a;
    if b.last == -1 || b.last >= n then Range(b.first, n - 1) else b
  }

  predicate Within(r: Range, n: int) { 0 <= r.first <= r.last < n }

  predicate In(r: Range, pos: int) { r.first <= pos <= r.last }

  /** The positions a range of the header asks for. */
  predicate Wanted(r: Range, n: int, pos: int) {
    && 0 <= pos < n
    && (if r.first == -1 then n - r.last <= pos else r.first <= pos && (r.last == -1 || pos <= r.last))
  }

  /** A satisfiable range is normalised to exactly the positions it asks for; refused are a start behind the end, an
      empty suffix, and a suffix longer than the content. */
  lemma NormalMeaning(r: Range, n: int, pos: int)
    requires ValidRange(r) && n >= 0
    ensures Within(Normal(r, n), n) <==> if r.first == -1 then 1 <= r.last <= n else r.first < n
    ensures Within(Normal(r, n), n) ==> (In(Normal(r, n), pos) <==> Wanted(r, n, pos))
  {
  }

  lemma NormalTwice(r: Range, n: int)
    requires Within(r, n)
    ensures Normal(r, n) == r
  {
  }

  function Normals(ranges: seq<Range>, n: int): (r: seq<Range>)
    ensures |r| == |ranges|
    ensures forall i :: 0 <= i < |r| ==> r[i] == Normal(ranges[i], n)
  {
    seq(|ranges|, i requires 0 <= i < |ranges| => Normal(ranges[i], n))
  }

  ghost predicate AllWithin(ranges: seq<Range>, n: int) {
    forall i :: 0 <= i < |ranges| ==> Within(ranges[i], n)
  }

  // ---------- Overlaps ----------

  predicate Overlap(a: Range, b: Range) { !(b.last < a.first || b.first > a.last) }

  predicate OverlapsAny(ranges: seq<Range>, r: Range) {
    exists j :: 0 <= j < |ranges| && Overlap(ranges[j], r)
  }

  /** How many ranges overlap one before them. */
  function OverlapCount(ranges: seq<Range>): nat
    decreases |ranges|
  {
    if ranges == [] then 0
    else
      var k := |ranges| - 1;
      OverlapCount(ranges[..k]) + if OverlapsAny(ranges[..k], ranges[k]) then 1 else 0
  }

  lemma {:induction false} OverlapCountGrows(ranges: seq<Range>, k: nat)
    requires k <= |ranges|
    ensures OverlapCount(ranges[..k]) <= OverlapCount(ranges)
    decreases |ranges|
  {
    if k == |ranges| {
      assert ranges[..k] == ranges;
    } else {
      var m := |ranges| - 1;
      OverlapCountGrows(ranges[..m], k);
      assert ranges[..m][..k] == ranges[..k];
    }
  }

  /** The first range overlaps none before it. */
  lemma {:induction false} OverlapCountBelow(ranges: seq<Range>)
    requires ranges != []
    ensures OverlapCount(ranges) < |ranges|
    decreases |ranges|
  {
    hide Overlap;
    var k := |ranges| - 1;
    if k == 0 {
      assert ranges[..0] == [];
    } else {
      OverlapCountBelow(ranges[..k]);
    }
  }

  ghost predicate Rejected(ranges: seq<Range>, n: int) {
    || |ranges| > RANGE_MAX_COUNT
    || !AllWithin(Normals(ranges, n), n)
    || OverlapCount(Normals(ranges, n)) > 2
  }

  /** It starts inside the content, or is a suffix that is not empty and not longer than the content. */
  predicate Satisfiable(r: Range, n: int) { if r.first == -1 then 1 <= r.last <= n else r.first < n }

  /** Both ask for some position. */
  ghost predicate Share(a: Range, b: Range, n: int) {
    exists pos :: Wanted(a, n, pos) && Wanted(b, n, pos)
  }

  /** The ranges that share a position with one before them. */
  ghost function Sharing(ranges: seq<Range>, n: int): set<int> {
    set i | 0 <= i < |ranges| && exists j :: 0 <= j < i && Share(ranges[j], ranges[i], n)
  }

  lemma OverlapIff(a: Range, b: Range, n: int)
    requires ValidRange(a) && ValidRange(b) && n >= 0 && Within(Normal(a, n), n) && Within(Normal(b, n), n)
    ensures Overlap(Normal(a, n), Normal(b, n)) <==> Share(a, b, n)
  {
    var x, y := Normal(a, n), Normal(b, n);
    if Overlap(x, y) {
      var pos := if x.first < y.first then y.first else x.first;
      NormalMeaning(a, n, pos);
      NormalMeaning(b, n, pos);
    }
    if pos :| Wanted(a, n, pos) && Wanted(b, n, pos) {
      NormalMeaning(a, n, pos);
      NormalMeaning(b, n, pos);
    }
  }

  lemma {:induction false} OverlapCountIs(ranges: seq<Range>, n: int)
    requires n >= 0 && AllWithin(Normals(ranges, n), n) && forall i :: 0 <= i < |ranges| ==> ValidRange(ranges[i])
    ensures OverlapCount(Normals(ranges, n)) == |Sharing(ranges, n)|
    decreases |ranges|
  {
    hide Normal;
    hide Overlap;
    hide Share;
    hide ValidRange;
    if ranges != [] {
      var k := |ranges| - 1;
      var front := ranges[..k];
      assert Normals(ranges, n)[..k] == Normals(front, n);
      OverlapCountIs(front, n);
      forall j | 0 <= j < k ensures Overlap(Normals(front, n)[j], Normals(ranges, n)[k]) <==> Share(ranges[j], ranges[k], n) {
        OverlapIff(ranges[j], ranges[k], n);
      }
      assert OverlapsAny(Normals(front, n), Normals(ranges, n)[k]) <==> k in Sharing(ranges, n);
      SharingSnoc(ranges, n);
    }
  }

  lemma SharingSnoc(ranges: seq<Range>, n: int)
    requires ranges != []
    ensures var k := |ranges| - 1;
            |Sharing(ranges, n)| == |Sharing(ranges[..k], n)| + if k in Sharing(ranges, n) then 1 else 0
  {
    hide Share;
    var k := |ranges| - 1;
    var a, b := Sharing(ranges, n), Sharing(ranges[..k], n);
    forall i ensures i in a <==> i in b || (i == k && k in a) {
      if 0 <= i < k { assert forall j :: 0 <= j <= i ==> ranges[..k][j] == ranges[j]; }
    }
    assert k !in b;
    assert a == b + if k in a then {k} else {};
  }

  /** What is refused, in terms of the request: more than 1024 ranges, a range that cannot be satisfied, or more than two
      that share a position with one before them. */
  lemma RejectedIff(ranges: seq<Range>, n: int)
    requires n >= 0 && forall i :: 0 <= i < |ranges| ==> ValidRange(ranges[i])
    ensures Rejected(ranges, n) <==>
            || |ranges| > 1024
            || (exists i :: 0 <= i < |ranges| && !Satisfiable(ranges[i], n))
            || |Sharing(ranges, n)| > 2
  {
    hide Normal;
    hide Satisfiable;
    hide OverlapCount;
    hide Share;
    hide ValidRange;
    forall i | 0 <= i < |ranges| ensures Within(Normals(ranges, n)[i], n) <==> Satisfiable(ranges[i], n) { SatisfiableIff(ranges[i], n); }
    if AllWithin(Normals(ranges, n), n) { OverlapCountIs(ranges, n); }
  }

  lemma SatisfiableIff(r: Range, n: int)
    requires ValidRange(r) && n >= 0
    ensures Within(Normal(r, n), n) <==> Satisfiable(r, n)
  {
    NormalMeaning(r, n, 0);
  }

  // ---------- Coalescing ----------

  ghost predicate SortedByFirst(ranges: seq<Range>) {
    forall i, j :: 0 <= i < j < |ranges| ==> ranges[i].first <= ranges[j].first
  }

  /** Any order that `std::sort` may leave. */
  ghost predicate SortOf(ranges: seq<Range>, sorted: seq<Range>) {
    SortedByFirst(sorted) && multiset(sorted) == multiset(ranges)
  }

  function Merge(acc: seq<Range>, r: Range): seq<Range> {
    if acc == [] then [r]
    else
      var k := |acc| - 1;
      var prev := acc[k];
      if r.first <= prev.last + 1 && r != prev
      then acc[..k] + [Range(prev.first, if prev.last < r.last then r.last else prev.last)]
      else acc + [r]
  }

  function Coalesced(sorted: seq<Range>, n: int): seq<Range>
    decreases |sorted|
  {
    if sorted == [] then []
    else
      var k := |sorted| - 1;
      var acc := Coalesced(sorted[..k], n);
      var r := Normal(sorted[k], n);
      if Within(r, n) then Merge(acc, r) else acc
  }

  /** The list is coalesced after some order that the sort may leave; one range or none is left alone. */
  ghost predicate CoalesceOf(ranges: seq<Range>, n: int, out: seq<Range>) {
    if |ranges| <= 1 then out == ranges
    else exists sorted :: SortOf(ranges, sorted) && out == Coalesced(sorted, n)
  }

  method InsertByFirst(sorted: seq<Range>, r: Range) returns (out: seq<Range>)
    requires SortedByFirst(sorted)
    ensures SortOf([r] + sorted, out)
  {
    hide SortedByFirst;
    var k := 0;
    while k < |sorted| && sorted[k].first <= r.first
      invariant 0 <= k <= |sorted|
      invariant forall i :: 0 <= i < k ==> sorted[i].first <= r.first
    {
      k := k + 1;
    }
    out := sorted[..k] + [r] + sorted[k..];
    InsertedSorted(sorted, r, k);
    InsertedPermutes(sorted, r, k);
  }

  lemma InsertedSorted(sorted: seq<Range>, r: Range, k: nat)
    requires SortedByFirst(sorted) && k <= |sorted|
    requires forall i :: 0 <= i < k ==> sorted[i].first <= r.first
    requires k < |sorted| ==> r.first <= sorted[k].first
    ensures SortedByFirst(sorted[..k] + [r] + sorted[k..])
  {
    var out := sorted[..k] + [r] + sorted[k..];
    forall i, j | 0 <= i < j < |out| ensures out[i].first <= out[j].first {
      assert out[i] == if i < k then sorted[i] else if i == k then r else sorted[i - 1];
      assert out[j] == if j < k then sorted[j] else if j == k then r else sorted[j - 1];
    }
  }

  lemma InsertedPermutes(sorted: seq<Range>, r: Range, k: nat)
    requires k <= |sorted|
    ensures multiset(sorted[..k] + [r] + sorted[k..]) == multiset([r] + sorted)
  {
    assert sorted == sorted[..k] + sorted[k..];
  }

  /** Stands for `std::sort`, of which only this is used: sorted by the start, and a permutation. */
  method SortByFirst(ranges: seq<Range>) returns (out: seq<Range>)
    ensures SortOf(ranges, out)
  {
    hide SortedByFirst;
    out := [];
    assert SortedByFirst(out) by { SortedNothing(); }
    for i := 0 to |ranges|
      invariant SortOf(ranges[..i], out)
    {
      ghost var before := out;
      out := InsertByFirst(out, ranges[i]);
      assert ranges[..i + 1] == ranges[..i] + [ranges[i]];
      assert multiset(out) == multiset([ranges[i]] + before);
    }
    assert ranges[..|ranges|] == ranges;
  }

  lemma SortedNothing()
    ensures SortedByFirst([])
  {
  }

  /** The steps that both functions take over a range; none of them overflows. */
  method Normalise(r: Range, n: int) returns (out: Range)
    requires 0 <= n <= SSIZE_MAX
    requires IsSsize(r.first) && -1 <= r.last <= SSIZE_MAX
    ensures out == Normal(r, n)
  {
    var first, last := r.first, r.last;
    if first == -1 && last == -1 {
      first := 0;
      last := n;
    }
    if first == -1 {
      assert IsSsize(n - last);
      first := n - last;
      last := n - 1;
    }
    if last == -1 || last >= n { last := n - 1; }
    out := Range(first, last);
  }

  /** The end of a turn of `coalesce_ranges`: the last range is extended, or another one is added. */
  method MergeRange(out0: seq<Range>, r: Range, n: int) returns (out: seq<Range>)
    requires n <= SSIZE_MAX && Within(r, n) && forall j :: 0 <= j < |out0| ==> Within(out0[j], n)
    ensures out == Merge(out0, r) && forall j :: 0 <= j < |out| ==> Within(out[j], n)
  {
    out := out0;
    if out != [] {
      var prev := out[|out| - 1];
      assert IsSsize(prev.last + 1);
      if r.first <= prev.last + 1 && !(r.first == prev.first && r.last == prev.last) {
        return out[..|out| - 1] + [Range(prev.first, if prev.last < r.last then r.last else prev.last)];
      }
    }
    assert out == [] ==> out + [r] == [r];
    out := out + [r];
  }

  lemma CoalescedTurn(s: seq<Range>, i: nat, n: int)
    requires i < |s|
    ensures Coalesced(s[..i + 1], n) ==
            if Within(Normal(s[i], n), n) then Merge(Coalesced(s[..i], n), Normal(s[i], n)) else Coalesced(s[..i], n)
  {
    hide Merge;
    hide Normal;
    assert s[..i + 1][..i] == s[..i];
  }

  /** `coalesce_ranges` */
  method CoalesceRanges(ranges: seq<Range>, n: int) returns (out: seq<Range>)
    requires 0 <= n <= SSIZE_MAX
    requires forall i :: 0 <= i < |ranges| ==> IsSsize(ranges[i].first) && -1 <= ranges[i].last <= SSIZE_MAX
    ensures CoalesceOf(ranges, n, out)
  {
    if |ranges| <= 1 { return ranges; }
    hide SortedByFirst;
    hide Normal;
    hide Merge;
    var s := SortByFirst(ranges);
    out := [];
    assert s[..0] == [];
    for i := 0 to |s|
      invariant out == Coalesced(s[..i], n)
      invariant forall j :: 0 <= j < |out| ==> Within(out[j], n)
    {
      CoalescedTurn(s, i, n);
      hide Coalesced;
      assert s[i] in multiset(s);
      var r := Normalise(s[i], n);
      if !(0 <= r.first <= r.last < n) { continue; }
      out := MergeRange(out, r, n);
    }
    assert s[..|s|] == s;
  }

  class Request {
    var ranges: seq<Range>

    constructor (ranges: seq<Range>)
      ensures this.ranges == ranges
    {
      this.ranges := ranges;
    }

    /** The validating loop: ranges are normalised one after the other, and counted when they overlap. */
    method Validate(n: int) returns (err: bool)
      requires 0 <= n <= SSIZE_MAX
      requires forall i :: 0 <= i < |ranges| ==> ValidRange(ranges[i]) && IsSsize(ranges[i].first) && IsSsize(ranges[i].last)
      modifies this
      ensures err <==> !AllWithin(Normals(old(ranges), n), n) || OverlapCount(Normals(old(ranges), n)) > 2
      ensures !err ==> ranges == Normals(old(ranges), n)
    {
      hide OverlapsAny;
      hide OverlapCount;
      hide Normal;
      hide Overlap;
      ghost var was := ranges;
      ghost var normals := Normals(was, n);
      var processed: seq<Range> := [];
      var overlapping := 0;
      CountNothing();
      assert normals[..0] + was[0..] == was;
      for i := 0 to |ranges|
        invariant |ranges| == |was| && ranges == normals[..i] + was[i..]
        invariant processed == normals[..i] && AllWithin(processed, n)
        invariant overlapping == OverlapCount(processed) <= 2
      {
        UpdateSplit(normals, was, i);
        var r := Normalise(ranges[i], n);
        ranges := ranges[i := r];
        if !(0 <= r.first <= r.last <= n - 1) {
          assert !Within(normals[i], n);
          return true;
        }
        var hit := FirstOverlap(processed, r);
        CountSnoc(processed, r);
        OverlapCountGrows(normals, i + 1);
        if hit {
          overlapping := overlapping + 1;
          if overlapping > 2 { return true; }
        }
        processed := processed + [r];
      }
      assert normals[..|was|] == normals && normals + was[|was|..] == normals;
      return false;
    }

    /** `range_error`, on ranges as `parse_range_header` leaves them; they are changed in place. */
    method RangeError(status: int, n: int) returns (err: bool)
      requires 0 <= n <= SSIZE_MAX
      requires forall i :: 0 <= i < |ranges| ==> ValidRange(ranges[i]) && IsSsize(ranges[i].first) && IsSsize(ranges[i].last)
      modifies this
      ensures !(old(ranges) != [] && 200 <= status < 300) ==> !err && ranges == old(ranges)
      ensures old(ranges) != [] && 200 <= status < 300 ==>
                && (err <==> Rejected(old(ranges), n))
                && (!err ==> CoalesceOf(Normals(old(ranges), n), n, ranges))
    {
      hide OverlapCount;
      hide Normal;
      hide Coalesced;
      hide SortedByFirst;
      if ranges == [] || !(200 <= status < 300) { return false; }
      if |ranges| > RANGE_MAX_COUNT { return true; }
      err := Validate(n);
      if err { return true; }
      ranges := CoalesceRanges(ranges, n);
    }
  }

  lemma UpdateSplit(a: seq<Range>, b: seq<Range>, i: nat)
    requires |a| == |b| && i < |a|
    ensures var s := a[..i] + b[i..];
            s[i] == b[i] && s[i := a[i]] == a[..i + 1] + b[i + 1..] && a[..i + 1] == a[..i] + [a[i]]
  {
  }

  lemma CountNothing()
    ensures OverlapCount([]) == 0
  {
  }

  lemma CountSnoc(ranges: seq<Range>, r: Range)
    ensures OverlapCount(ranges + [r]) == OverlapCount(ranges) + if OverlapsAny(ranges, r) then 1 else 0
  {
    assert (ranges + [r])[..|ranges|] == ranges;
  }

  method FirstOverlap(processed: seq<Range>, r: Range) returns (hit: bool)
    ensures hit == OverlapsAny(processed, r)
  {
    for j := 0 to |processed|
      invariant forall k :: 0 <= k < j ==> !Overlap(processed[k], r)
    {
      if !(r.last < processed[j].first || r.first > processed[j].last) { return true; }
    }
    return false;
  }

  /** So the list is always the coalesced form of a sorted permutation. */
  lemma CoalesceSorted(ranges: seq<Range>, n: int, out: seq<Range>) returns (sorted: seq<Range>)
    requires AllWithin(ranges, n) && CoalesceOf(ranges, n, out)
    ensures SortOf(ranges, sorted) && out == Coalesced(sorted, n)
  {
    if |ranges| <= 1 {
      sorted := ranges;
      if |ranges| == 1 { OneCoalesced(ranges, n); }
    } else {
      sorted :| SortOf(ranges, sorted) && out == Coalesced(sorted, n);
    }
  }

  lemma OneCoalesced(ranges: seq<Range>, n: int)
    requires |ranges| == 1 && Within(ranges[0], n)
    ensures Coalesced(ranges, n) == ranges
  {
    NormalTwice(ranges[0], n);
    assert ranges[..0] == [];
  }
}
