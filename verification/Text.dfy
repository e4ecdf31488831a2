/** Octet strings and the text helpers of `detail`: searching, trimming and splitting.
    A `std::string` is a sequence of octets; it is written here as a Dafny `string`. */
module Text {

  lemma AppendAssoc<T>(a: seq<T>, b: seq<T>, c: seq<T>)
    ensures (a + b) + c == a + (b + c)
  {
  }

  datatype Option<+T> = None | Some(value: T)

  function Join(pieces: seq<string>): string {
    if pieces == [] then "" else pieces[0] + Join(pieces[1..])
  }

  predicate IsOctet(c: char) { c as int < 256 }

  predicate Octets(s: string) { forall i :: 0 <= i < |s| ==> IsOctet(s[i]) }

  const CRLF: string := "\r\n"
  const DASH: string := "--"

  const CAPITALS: string := "ABCDEFGHIJKLMNOPQRSTUVWXYZ"
  const SMALLS: string := "abcdefghijklmnopqrstuvwxyz"
  const DIGITS: string := "0123456789"

  predicate Alphanumeric(c: char) { c in CAPITALS || c in SMALLS || c in DIGITS }

  lemma CapitalsAre(c: char)
    ensures c in CAPITALS <==> 'A' <= c <= 'Z'
  {
  }

  lemma SmallsAre(c: char)
    ensures c in SMALLS <==> 'a' <= c <= 'z'
  {
  }

  lemma DigitsAre(c: char)
    ensures c in DIGITS <==> '0' <= c <= '9'
  {
  }

  lemma AlphanumericIff(c: char)
    ensures Alphanumeric(c) <==> 'A' <= c <= 'Z' || 'a' <= c <= 'z' || '0' <= c <= '9'
  {
    CapitalsAre(c);
    SmallsAre(c);
    DigitsAre(c);
    hide CAPITALS;
    hide SMALLS;
    hide DIGITS;
  }

  predicate IsSpaceOrTab(c: char) { c == ' ' || c == '\t' }

  /** `pat` occurs in `s` at index `i`. */
  predicate OccursAt(s: string, pat: string, i: int) {
    0 <= i && i + |pat| <= |s| && s[i..i + |pat|] == pat
  }

  function FindFrom(s: string, pat: string, from: nat): (i: nat)
    requires from <= |s|
    ensures from <= i <= |s|
    ensures i < |s| ==> OccursAt(s, pat, i)
    ensures forall j :: from <= j < i ==> !OccursAt(s, pat, j)
    decreases |s| - from
  {
    if from == |s| then |s|
    else if OccursAt(s, pat, from) then from
    else FindFrom(s, pat, from + 1)
  }

  /** Index of the first occurrence of `pat`, or `|s|` when there is none. */
  function Find(s: string, pat: string): (i: nat)
    ensures i <= |s|
    ensures i < |s| ==> OccursAt(s, pat, i)
    ensures forall j :: 0 <= j < i ==> !OccursAt(s, pat, j)
  {
    FindFrom(s, pat, 0)
  }

  lemma OccursAtIff(s: string, pat: string, i: nat)
    requires i + |pat| <= |s|
    ensures OccursAt(s, pat, i) <==> forall j :: 0 <= j < |pat| ==> s[i + j] == pat[j]
  {
    var here := s[i..i + |pat|];
    assert forall j :: 0 <= j < |pat| ==> here[j] == s[i + j];
    if forall j :: 0 <= j < |pat| ==> s[i + j] == pat[j] { assert here == pat; }
  }

  lemma OccursAtFront(s: string, pat: string)
    ensures OccursAt(s, pat, 0) <==> pat <= s
  {
    if |pat| <= |s| { assert s[..|pat|] == s[0..0 + |pat|]; }
  }

  lemma FindAtFront(pat: string, rest: string)
    ensures Find(pat + rest, pat) == 0
    ensures (pat + rest)[|pat|..] == rest
  {
    OccursAtFront(pat + rest, pat);
    assert (pat + rest)[..|pat|] == pat;
  }

  /** The three facts of `Find` determine it. */
  lemma FindIs(s: string, pat: string, i: nat)
    requires i <= |s| && |pat| > 0
    requires i < |s| ==> OccursAt(s, pat, i)
    requires forall j :: 0 <= j < i ==> !OccursAt(s, pat, j)
    ensures Find(s, pat) == i
  {
  }

  lemma OccursInPrefix(s: string, t: string, pat: string, i: int)
    requires 0 <= i && i + |pat| <= |s|
    ensures OccursAt(s + t, pat, i) <==> OccursAt(s, pat, i)
  {
    assert (s + t)[i..i + |pat|] == s[i..i + |pat|];
  }

  lemma OccursInSuffix(s: string, k: nat, pat: string, i: int)
    requires k <= |s| && k <= i
    ensures OccursAt(s, pat, i) <==> OccursAt(s[k..], pat, i - k)
  {
    if i + |pat| <= |s| {
      assert s[k..][i - k..i - k + |pat|] == s[i..i + |pat|];
    }
  }

  /** A match already in the buffer is still the first one when more text arrives. */
  lemma FindStable(s: string, t: string, pat: string)
    requires |pat| > 0
    requires Find(s, pat) < |s|
    ensures Find(s + t, pat) == Find(s, pat)
  {
    var i := Find(s, pat);
    forall j | 0 <= j <= i ensures OccursAt(s + t, pat, j) <==> OccursAt(s, pat, j) {
      OccursInPrefix(s, t, pat, j);
    }
    FindIs(s + t, pat, i);
  }

  /** Without a match in `s`, the first `k <= |s| - |pat|` octets can never be part of one. */
  lemma FindLater(s: string, t: string, pat: string, k: nat)
    requires |pat| > 0
    requires Find(s, pat) == |s|
    requires k + |pat| <= |s|
    ensures Find(s + t, pat) == k + Find((s + t)[k..], pat)
  {
    var u := s + t;
    var r := Find(u[k..], pat);
    forall j | 0 <= j < k + r ensures !OccursAt(u, pat, j) {
      if j < k {
        OccursInPrefix(s, t, pat, j);
      } else {
        OccursInSuffix(u, k, pat, j);
      }
    }
    if r < |u[k..]| { OccursInSuffix(u, k, pat, k + r); }
    FindIs(u, pat, k + r);
  }

  lemma OccursStart(s: string, pat: string, i: int)
    requires pat != "" && OccursAt(s, pat, i)
    ensures s[i] == pat[0]
  {
    assert s[i..i + |pat|][0] == s[i];
  }

  /** A text without carriage returns is cut off by the CRLF behind it. */
  lemma FirstCrlf(line: string, rest: string)
    requires '\r' !in line
    ensures Find(line + CRLF + rest, CRLF) == |line|
  {
    var s := line + CRLF + rest;
    assert s[|line|..|line| + 2] == CRLF;
    forall j | 0 <= j < |line| ensures !OccursAt(s, CRLF, j) {
      assert s[j] == line[j];
      if OccursAt(s, CRLF, j) { OccursStart(s, CRLF, j); }
    }
    FindIs(s, CRLF, |line|);
  }

  /** Half a line end is none. */
  lemma NoCrlfYet(line: string)
    requires '\r' !in line
    ensures Find(line + "\r", CRLF) == |line| + 1
  {
    var s := line + "\r";
    forall j | 0 <= j < |s| ensures !OccursAt(s, CRLF, j) {
      if OccursAt(s, CRLF, j) { OccursStart(s, CRLF, j); }
    }
    FindIs(s, CRLF, |s|);
  }

  function IndexFrom(s: string, c: char, from: nat): (i: nat)
    requires from <= |s|
    ensures from <= i <= |s|
    ensures i < |s| ==> s[i] == c
    ensures forall j :: from <= j < i ==> s[j] != c
    decreases |s| - from
  {
    if from == |s| || s[from] == c then from else IndexFrom(s, c, from + 1)
  }

  /** Index of the first `c`, or `|s|` when there is none. */
  function IndexOf(s: string, c: char): (i: nat)
    ensures i <= |s|
    ensures i < |s| ==> s[i] == c
    ensures forall j :: 0 <= j < i ==> s[j] != c
  {
    IndexFrom(s, c, 0)
  }

  /** Index of the first octet at or after `from` that is not a space or tab. */
  function SkipBlanks(s: string, from: nat): (k: nat)
    requires from <= |s|
    ensures from <= k <= |s|
    ensures k < |s| ==> !IsSpaceOrTab(s[k])
    ensures forall i :: from <= i < k ==> IsSpaceOrTab(s[i])
    decreases |s| - from
  {
    if from == |s| || !IsSpaceOrTab(s[from]) then from else SkipBlanks(s, from + 1)
  }

  /** End of the text before `to` without its trailing spaces and tabs. */
  function BackBlanks(s: string, to: nat): (k: nat)
    requires to <= |s|
    ensures k <= to
    ensures k > 0 ==> !IsSpaceOrTab(s[k - 1])
    ensures forall i :: k <= i < to ==> IsSpaceOrTab(s[i])
  {
    if to == 0 || !IsSpaceOrTab(s[to - 1]) then to else BackBlanks(s, to - 1)
  }

  lemma SkipBlanksIs(s: string, k: nat)
    requires k <= |s| && (k < |s| ==> !IsSpaceOrTab(s[k]))
    requires forall i :: 0 <= i < k ==> IsSpaceOrTab(s[i])
    ensures SkipBlanks(s, 0) == k && TrimLeft(s) == s[k..]
  {
  }

  lemma BackBlanksIs(s: string, k: nat)
    requires k <= |s| && (k > 0 ==> !IsSpaceOrTab(s[k - 1]))
    requires forall i :: k <= i < |s| ==> IsSpaceOrTab(s[i])
    ensures BackBlanks(s, |s|) == k && TrimRight(s) == s[..k]
  {
  }

  lemma IndexOfIs(s: string, c: char, k: nat)
    requires k <= |s| && (k < |s| ==> s[k] == c)
    requires forall i :: 0 <= i < k ==> s[i] != c
    ensures IndexOf(s, c) == k
  {
  }

  function TrimLeft(s: string): string {
    s[SkipBlanks(s, 0)..]
  }

  function TrimRight(s: string): string {
    s[..BackBlanks(s, |s|)]
  }

  function Trim(s: string): string {
    TrimRight(TrimLeft(s))
  }

  /** A text that neither starts nor ends with a space or tab. */
  predicate Trimmed(s: string) {
    s == "" || (!IsSpaceOrTab(s[0]) && !IsSpaceOrTab(s[|s| - 1]))
  }

  lemma TrimTrimmed(s: string)
    requires Trimmed(s)
    ensures Trim(s) == s
  {
    assert SkipBlanks(s, 0) == 0;
    assert BackBlanks(s, |s|) == |s|;
  }

  /** `split`: the non-empty trimmed pieces between separators, in order. */
  function Split(s: string, d: char): seq<string>
    decreases |s|
  {
    var i := IndexOf(s, d);
    Piece(s[..i]) + (if i == |s| then [] else Split(s[i + 1..], d))
  }

  function Piece(s: string): seq<string> {
    var t := Trim(s);
    if t == "" then [] else [t]
  }

  lemma SplitLast(s: string, d: char)
    requires d !in s
    ensures Split(s, d) == Piece(s)
  {
    assert IndexOf(s, d) == |s|;
    assert s[..|s|] == s;
  }

  lemma SplitCons(a: string, d: char, s: string)
    requires d !in a
    ensures Split(a + [d] + s, d) == Piece(a) + Split(s, d)
  {
    var t := a + [d] + s;
    assert t[..|a|] == a && t[|a|] == d;
    assert forall j :: 0 <= j < |a| ==> t[j] == a[j];
    assert IndexOf(t, d) == |a|;
    assert t[|a| + 1..] == s;
  }

  lemma SliceOfSlice(b: string, i: nat, j: nat, k: nat)
    requires i <= j <= k <= |b|
    ensures b[i..k][..j - i] == b[i..j]
  {
  }

  lemma TrimSlice(b: string, left0: nat, right0: nat, left: nat, right: nat)
    requires left0 <= left <= right0 <= |b| && left0 <= right <= right0
    requires forall i :: left0 <= i < left ==> IsSpaceOrTab(b[i])
    requires left < right0 ==> !IsSpaceOrTab(b[left])
    requires forall i :: right <= i < right0 ==> IsSpaceOrTab(b[i])
    requires left0 < right ==> !IsSpaceOrTab(b[right - 1])
    ensures left < right ==> b[left..right] == Trim(b[left0..right0])
    ensures left >= right ==> Trim(b[left0..right0]) == ""
  {
    hide SkipBlanks;
    hide BackBlanks;
    hide TrimLeft;
    hide TrimRight;
    var s := b[left0..right0];
    SkipBlanksIs(s, left - left0);
    var t := b[left..right0];
    assert s[left - left0..] == t;
    if left < right {
      BackBlanksIs(t, right - left);
      SliceOfSlice(b, left, right, right0);
    } else {
      BackBlanksIs(t, 0);
    }
  }

  /** `trim`: moves `left` right and `right` left over spaces and tabs. In a blank piece both may leave it, and then
      they have passed each other. */
  method TrimRange(b: string, left0: nat, right0: nat) returns (left: nat, right: nat)
    requires left0 <= right0 <= |b|
    ensures left <= |b| && right <= |b|
    ensures left < right ==> b[left..right] == Trim(b[left0..right0])
    ensures left >= right ==> Trim(b[left0..right0]) == ""
  {
    left, right := left0, right0;
    while left < |b| && IsSpaceOrTab(b[left])
      invariant left0 <= left <= |b|
      invariant forall i :: left0 <= i < left ==> IsSpaceOrTab(b[i])
    {
      left := left + 1;
    }
    while right > 0 && IsSpaceOrTab(b[right - 1])
      invariant 0 <= right <= right0
      invariant forall i :: right <= i < right0 ==> IsSpaceOrTab(b[i])
    {
      right := right - 1;
    }
    TrimSlice(b, left0, right0, if left < right0 then left else right0, if right > left0 then right else left0);
  }

  method PieceOf(b: string, beg: nat, i: nat) returns (pieces: seq<string>)
    requires beg <= i <= |b|
    ensures pieces == Piece(b[beg..i])
  {
    var l, r := TrimRange(b, beg, i);
    pieces := if l < r then [b[l..r]] else [];
  }

  /** The loop of `split`, which hands every piece to its callback in order. */
  method SplitPieces(b: string, d: char) returns (pieces: seq<string>)
    ensures pieces == Split(b, d)
  {
    hide Split;
    hide Piece;
    hide Rest;
    pieces := [];
    var i, beg := 0, 0;
    ghost var whole := SplitStart(b, d);
    ghost var rest := whole;
    while i < |b|
      invariant 0 <= beg <= i <= |b|
      invariant forall j :: beg <= j < i ==> b[j] != d
      invariant Rest(b, d, beg, rest)
      invariant pieces + rest == whole
    {
      if b[i] == d {
        var piece := PieceOf(b, beg, i);
        rest := SplitStep(b, d, beg, i, rest);
        AppendAssoc(pieces, piece, rest);
        pieces := pieces + piece;
        beg := i + 1;
      }
      i := i + 1;
    }
    SplitEnd(b, d, beg, rest);
    if i > 0 {
      var piece := PieceOf(b, beg, i);
      pieces := pieces + piece;
    }
  }

  lemma SplitStep(b: string, d: char, beg: nat, i: nat, all: seq<string>) returns (rest: seq<string>)
    requires beg <= i < |b| && b[i] == d
    requires forall j :: beg <= j < i ==> b[j] != d
    requires Rest(b, d, beg, all)
    ensures all == Piece(b[beg..i]) + rest
    ensures Rest(b, d, i + 1, rest)
  {
    assert b[beg..] == b[beg..i] + [d] + b[i + 1..];
    SplitCons(b[beg..i], d, b[i + 1..]);
    rest := Split(b[i + 1..], d);
  }

  lemma SplitStart(b: string, d: char) returns (rest: seq<string>)
    ensures Rest(b, d, 0, rest)
    ensures rest == Split(b, d)
  {
    assert b[0..] == b;
    rest := Split(b, d);
  }

  lemma SplitEnd(b: string, d: char, beg: nat, all: seq<string>)
    requires beg <= |b|
    requires forall j :: beg <= j < |b| ==> b[j] != d
    requires Rest(b, d, beg, all)
    ensures all == Piece(b[beg..|b|])
    ensures |b| == 0 ==> all == []
  {
    assert b[beg..] == b[beg..|b|];
    SplitLast(b[beg..], d);
  }

  ghost predicate Rest(b: string, d: char, beg: nat, rest: seq<string>) {
    beg <= |b| && rest == Split(b[beg..], d)
  }
}
