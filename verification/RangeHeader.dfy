/** The Range header: `make_range_header` and `parse_range_header` (RFC 9110 section 14.2). */
module RangeHeader {
  import opened Text
  import opened Numbers

  const SSIZE_MAX: int := 0x7FFF_FFFF_FFFF_FFFF

  predicate IsSsize(x: int) { -SSIZE_MAX - 1 <= x <= SSIZE_MAX }

  /** First and last position; -1 stands for an end that is left out. */
  datatype Range = Range(first: int, last: int)

  function EndText(x: int): string { if x == -1 then "" else ToString(x) }

  function RangeText(r: Range): string { EndText(r.first) + "-" + EndText(r.last) }

  const PREFIX: string := "bytes="

  function RangesText(ranges: seq<Range>): string
    decreases |ranges|
  {
    if ranges == [] then ""
    else if |ranges| == 1 then RangeText(ranges[0])
    else RangeText(ranges[0]) + ", " + RangesText(ranges[1..])
  }

  lemma TwoRangesText(a: Range, b: Range)
    ensures RangesText([a, b]) == RangeText(a) + ", " + RangeText(b)
    ensures RangesText([Range(0, 499), Range(9500, -1)]) == RangeText(Range(0, 499)) + ", " + RangeText(Range(9500, -1))
  {
    assert [a, b][1..] == [b];
    hide RangeText;
    assert [Range(0, 499), Range(9500, -1)][1..] == [Range(9500, -1)];
  }

  function Remaining(ranges: seq<Range>, i: nat): string
    requires i <= |ranges|
  {
    (if 0 < i < |ranges| then ", " else "") + RangesText(ranges[i..])
  }

  lemma RemainingStep(field: string, ranges: seq<Range>, i: nat)
    requires i < |ranges|
    ensures field + Remaining(ranges, i) ==
            field + (if i != 0 then ", " else "") + EndText(ranges[i].first) + "-" + EndText(ranges[i].last)
            + Remaining(ranges, i + 1)
  {
    hide EndText;
    var rest := ranges[i..];
    assert rest[1..] == ranges[i + 1..];
    var sep := if i != 0 then ", " else "";
    var text := RangeText(ranges[i]);
    assert RangesText(rest) == text + Remaining(ranges, i + 1) by {
      if |rest| == 1 { assert ranges[i + 1..] == [] && text + "" == text; }
    }
    assert field + sep + (EndText(ranges[i].first) + "-" + EndText(ranges[i].last))
        == field + sep + EndText(ranges[i].first) + "-" + EndText(ranges[i].last);
  }

  /** The value of the header that `make_range_header` returns. */
  method MakeRangeHeader(ranges: seq<Range>) returns (field: string)
    ensures field == PREFIX + RangesText(ranges)
  {
    hide Remaining;
    hide ToString;
    field := PREFIX;
    ghost var goal := PREFIX + RangesText(ranges);
    RemainingEnds(ranges);
    for i := 0 to |ranges|
      invariant goal == field + Remaining(ranges, i)
    {
      RemainingStep(field, ranges, i);
      ghost var before := field;
      field := field + if i != 0 then ", " else "";
      field := field + if ranges[i].first != -1 then ToString(ranges[i].first) else "";
      field := field + "-";
      field := field + if ranges[i].last != -1 then ToString(ranges[i].last) else "";
    }
  }

  lemma RemainingEnds(ranges: seq<Range>)
    ensures Remaining(ranges, 0) == RangesText(ranges) && Remaining(ranges, |ranges|) == ""
  {
    assert ranges[0..] == ranges && ranges[|ranges|..] == [];
    assert "" + RangesText(ranges) == RangesText(ranges);
  }

  // ---------- Reading it ----------

  /** `std::stoll` of digits throws above the largest value. */
  function ParseEnd(s: string): Option<int> {
    if !AllDigits(s) then None
    else
      var value: int := if s == "" then -1 else DecValue(s);
      if value > SSIZE_MAX then None else Some(value)
  }

  function ParsePiece(p: string): Option<Range> {
    var i := IndexOf(p, '-');
    if i == |p| then None
    else
      var first := ParseEnd(p[..i]);
      var last := ParseEnd(p[i + 1..]);
      if first.None? || last.None? then None
      else if first.value == -1 && last.value == -1 then None
      else if first.value != -1 && last.value != -1 && first.value > last.value then None
      else Some(Range(first.value, last.value))
  }

  function ParsePieces(pieces: seq<string>): Option<seq<Range>>
    decreases |pieces|
  {
    if pieces == [] then Some([])
    else
      var r := ParsePiece(pieces[0]);
      var more := ParsePieces(pieces[1..]);
      if r.None? || more.None? then None else Some([r.value] + more.value)
  }

  function ParseRanges(s: string): Option<seq<Range>> {
    if |s| <= 7 || s[..6] != PREFIX then None
    else
      var rs := ParsePieces(Split(s[6..], ','));
      if rs.None? || rs.value == [] then None else rs
  }

  /** `parse_range_header`; on failure the list may hold the ranges before the faulty one. */
  method ParseRangeHeader(s: string) returns (ok: bool, ranges: seq<Range>)
    ensures ok <==> ParseRanges(s).Some?
    ensures ok ==> ranges == ParseRanges(s).value
  {
    hide ParsePiece;
    hide Split;
    ranges := [];
    if |s| <= 7 || s[..6] != PREFIX { return false, []; }
    var pieces := SplitPieces(s[6..], ',');
    var allValid := true;
    ghost var goal := ParsePieces(pieces);
    assert pieces[0..] == pieces;
    assert goal.Some? ==> [] + goal.value == goal.value;
    for i := 0 to |pieces|
      invariant allValid ==> goal.Some? == ParsePieces(pieces[i..]).Some?
      invariant allValid && goal.Some? ==> goal.value == ranges + ParsePieces(pieces[i..]).value
      invariant !allValid ==> goal.None?
    {
      assert pieces[i..][0] == pieces[i] && pieces[i..][1..] == pieces[i + 1..];
      if allValid {
        var r := ParsePiece(pieces[i]);
        if r.None? { allValid := false; } else { ranges := ranges + [r.value]; }
      }
    }
    assert pieces[|pieces|..] == [];
    ok := allValid && ranges != [];
  }

  // ---------- The round trip ----------

  predicate ValidRange(r: Range) {
    && r.first >= -1 && r.last >= -1 && !(r.first == -1 && r.last == -1)
    && (r.first != -1 && r.last != -1 ==> r.first <= r.last)
  }

  /** The text of one end: nothing, or a number in decimal that `ssize_t` can hold. */
  ghost predicate EndIs(text: string, x: int) {
    AllDigits(text) && if text == "" then x == -1 else x == DecValue(text) <= SSIZE_MAX
  }

  ghost predicate PieceIs(p: string, a: string, b: string, r: Range) {
    p == a + "-" + b && EndIs(a, r.first) && EndIs(b, r.last) && ValidRange(r)
  }

  ghost predicate IsPiece(p: string, r: Range) {
    exists a, b :: PieceIs(p, a, b, r)
  }

  /** Exactly the pieces of the grammar are accepted: two ends around a dash that make a valid range. */
  lemma PieceIff(p: string, r: Range)
    ensures ParsePiece(p) == Some(r) <==> IsPiece(p, r)
  {
    if ParsePiece(p) == Some(r) {
      var i := IndexOf(p, '-');
      assert p == p[..i] + "-" + p[i + 1..];
      assert PieceIs(p, p[..i], p[i + 1..], r);
    }
    if a, b :| PieceIs(p, a, b, r) {
      assert forall j :: 0 <= j < |a| ==> p[j] == a[j] && IsDigit(a[j]);
      assert p[|a|] == '-';
      IndexOfIs(p, '-', |a|);
      assert p[..|a|] == a && p[|a| + 1..] == b;
    }
  }

  lemma {:induction false} PiecesIff(pieces: seq<string>, ranges: seq<Range>)
    ensures ParsePieces(pieces) == Some(ranges) <==>
            |pieces| == |ranges| && forall i :: 0 <= i < |pieces| ==> ParsePiece(pieces[i]) == Some(ranges[i])
    decreases |pieces|
  {
    hide ParsePiece;
    if pieces != [] && ranges != [] {
      PiecesIff(pieces[1..], ranges[1..]);
      assert pieces == [pieces[0]] + pieces[1..] && ranges == [ranges[0]] + ranges[1..];
      assert forall i :: 1 <= i < |pieces| ==> pieces[i] == pieces[1..][i - 1];
      assert forall i :: 1 <= i < |ranges| ==> ranges[i] == ranges[1..][i - 1];
      if |pieces| == |ranges| && forall i :: 0 <= i < |pieces| ==> ParsePiece(pieces[i]) == Some(ranges[i]) {
        forall i | 0 <= i < |pieces[1..]| ensures ParsePiece(pieces[1..][i]) == Some(ranges[1..][i]) {
          assert ParsePiece(pieces[i + 1]) == Some(ranges[i + 1]);
        }
      }
    }
  }

  /** Which header values are accepted, and as which ranges. */
  lemma ParseRangesIff(s: string, ranges: seq<Range>)
    ensures ParseRanges(s) == Some(ranges) <==>
            && |s| > 7 && "bytes=" <= s && ranges != []
            && var pieces := Split(s[6..], ',');
               |pieces| == |ranges| && forall i :: 0 <= i < |pieces| ==> IsPiece(pieces[i], ranges[i])
  {
    hide Split;
    hide ParsePiece;
    hide ParsePieces;
    hide IsPiece;
    if |s| > 7 {
      assert s[..6] == PREFIX <==> "bytes=" <= s;
      var pieces := Split(s[6..], ',');
      PiecesIff(pieces, ranges);
      if |pieces| == |ranges| {
        forall i | 0 <= i < |pieces| ensures ParsePiece(pieces[i]) == Some(ranges[i]) <==> IsPiece(pieces[i], ranges[i]) {
          PieceIff(pieces[i], ranges[i]);
        }
      }
    }
  }

  lemma EndBack(x: int)
    requires IsSsize(x)
    ensures ParseEnd(EndText(x)) == if x >= -1 then Some(x) else None
    ensures x >= -1 ==> AllDigits(EndText(x))
    ensures x < -1 ==> EndText(x) != "" && EndText(x)[0] == '-'
  {
    if x >= 0 { DecTextValue(x); }
  }

  /** A range that is not valid has a text that is refused. */
  lemma PieceBack(r: Range)
    requires IsSsize(r.first) && IsSsize(r.last)
    ensures ParsePiece(RangeText(r)) == if ValidRange(r) then Some(r) else None
  {
    hide DecText;
    hide ToString;
    var lhs, rhs := EndText(r.first), EndText(r.last);
    var t := RangeText(r);
    EndBack(r.first);
    EndBack(r.last);
    hide EndText;
    if r.first >= -1 {
      assert t[|lhs|] == '-' && forall j :: 0 <= j < |lhs| ==> t[j] == lhs[j];
      IndexOfIs(t, '-', |lhs|);
      assert t[..|lhs|] == lhs && t[|lhs| + 1..] == rhs;
    } else {
      assert t[0] == lhs[0];
      IndexOfIs(t, '-', 0);
      var after := t[1..];
      assert after[|lhs| - 1] == t[|lhs|] == '-';
      assert !AllDigits(after);
    }
  }

  lemma RangeTextPlain(r: Range)
    ensures var t := RangeText(r); t != "" && ',' !in t && ' ' !in t && '\t' !in t
  {
    var lhs, rhs := EndText(r.first), EndText(r.last);
    assert forall i :: 0 <= i < |lhs| ==> IsDigit(lhs[i]) || lhs[i] == '-';
    assert forall i :: 0 <= i < |rhs| ==> IsDigit(rhs[i]) || rhs[i] == '-';
  }

  function Texts(ranges: seq<Range>): seq<string>
    decreases |ranges|
  {
    if ranges == [] then [] else [RangeText(ranges[0])] + Texts(ranges[1..])
  }

  lemma LeadingBlank(lead: string, t: string)
    requires lead == "" || lead == " "
    requires t != "" && ' ' !in t && '\t' !in t
    ensures Piece(lead + t) == [t]
  {
    hide Trim;
    var s := lead + t;
    assert s[|lead|] == t[0] && s[|s| - 1] == t[|t| - 1];
    TrimSlice(s, 0, |s|, |lead|, |s|);
    assert s[|lead|..|s|] == t && s[0..|s|] == s;
  }

  lemma {:induction false} TextsSplit(lead: string, ranges: seq<Range>)
    requires lead == "" || lead == " "
    requires ranges != []
    ensures Split(lead + RangesText(ranges), ',') == Texts(ranges)
    decreases |ranges|
  {
    hide Split;
    hide Piece;
    hide RangeText;
    var t := RangeText(ranges[0]);
    RangeTextPlain(ranges[0]);
    LeadingBlank(lead, t);
    if |ranges| == 1 {
      SplitLast(lead + t, ',');
      assert ranges[1..] == [];
    } else {
      var more := " " + RangesText(ranges[1..]);
      assert lead + RangesText(ranges) == (lead + t) + [','] + more;
      SplitCons(lead + t, ',', more);
      TextsSplit(" ", ranges[1..]);
    }
  }

  lemma {:induction false} TextsParsed(ranges: seq<Range>)
    requires forall i :: 0 <= i < |ranges| ==> IsSsize(ranges[i].first) && IsSsize(ranges[i].last)
    ensures ParsePieces(Texts(ranges)) ==
            if forall i :: 0 <= i < |ranges| ==> ValidRange(ranges[i]) then Some(ranges) else None
    decreases |ranges|
  {
    hide RangeText;
    hide ParsePiece;
    hide ValidRange;
    if ranges != [] {
      PieceBack(ranges[0]);
      TextsParsed(ranges[1..]);
      assert Texts(ranges)[1..] == Texts(ranges[1..]);
      assert ranges == [ranges[0]] + ranges[1..];
      if i :| 0 <= i < |ranges| && !ValidRange(ranges[i]) {
        assert i > 0 ==> ranges[1..][i - 1] == ranges[i];
      } else {
        assert forall j :: 0 <= j < |ranges| - 1 ==> ranges[1..][j] == ranges[j + 1];
      }
    }
  }

  /** What is printed is read back as the same list just when there is a range and every range is valid; otherwise it
      is refused. */
  lemma HeaderRoundTrip(ranges: seq<Range>)
    requires forall i :: 0 <= i < |ranges| ==> IsSsize(ranges[i].first) && IsSsize(ranges[i].last)
    ensures ParseRanges(PREFIX + RangesText(ranges)) ==
            if ranges != [] && forall i :: 0 <= i < |ranges| ==> ValidRange(ranges[i]) then Some(ranges) else None
  {
    hide Split;
    hide ParsePieces;
    hide RangeText;
    hide ValidRange;
    var text := RangesText(ranges);
    var s := PREFIX + text;
    assert s[..6] == PREFIX && s[6..] == text;
    if ranges != [] {
      TextsSplit("", ranges);
      assert "" + text == text;
      TextsParsed(ranges);
      if |s| <= 7 { ShortText(ranges); }
    }
  }

  /** A text of one octet is the dash of a range without ends. */
  lemma ShortText(ranges: seq<Range>)
    requires ranges != [] && |RangesText(ranges)| <= 1
    ensures !ValidRange(ranges[0])
  {
    RangeTextPlain(ranges[0]);
    assert |EndText(ranges[0].first)| == 0 && |EndText(ranges[0].last)| == 0;
  }
}
