/** A multipart/byteranges body as a client reads it. */
module RangeMultipart {
  import opened Text
  import opened Numbers
  import opened RangeHeader
  import opened RangeCheck
  import opened RangeReader
  import opened RangeResponse

  /** The positions of a range, the type, and the octets at these positions. */
  function ExcerptOf(r: Range, contentType: string, content: string): Excerpt
    requires Within(r, |content|)
  {
    Excerpt(Extent(r.first, r.last, |content|), contentType, content[r.first..r.last + 1])
  }

  function Excerpts(ranges: seq<Range>, contentType: string, content: string): (r: seq<Excerpt>)
    requires forall i :: 0 <= i < |ranges| ==> Within(ranges[i], |content|)
    ensures |r| == |ranges| && forall i :: 0 <= i < |r| ==> r[i] == ExcerptOf(ranges[i], contentType, content)
    decreases |ranges|
  {
    if ranges == [] then [] else [ExcerptOf(ranges[0], contentType, content)] + Excerpts(ranges[1..], contentType, content)
  }

  function OnePart(r: Range, boundary: string, contentType: string, content: string): string
    requires Within(r, |content|)
  {
    PartHead(r, boundary, contentType, |content|) + Slice(r, content) + CRLF
  }

  lemma PartsSnoc(ranges: seq<Range>, boundary: string, contentType: string, content: string)
    requires ranges != [] && forall i :: 0 <= i < |ranges| ==> Within(ranges[i], |content|)
    ensures var k := |ranges| - 1;
            Parts(ranges, boundary, contentType, content) ==
            Parts(ranges[..k], boundary, contentType, content) + OnePart(ranges[k], boundary, contentType, content)
    ensures |ranges| == 1 ==> Parts(ranges[..0], boundary, contentType, content) == ""
  {
    hide PartHead;
    hide Slice;
    var k := |ranges| - 1;
    PartsAssoc(Parts(ranges[..k], boundary, contentType, content), PartHead(ranges[k], boundary, contentType, |content|),
               Slice(ranges[k], content));
  }

  lemma {:induction false} PartsCons(ranges: seq<Range>, boundary: string, contentType: string, content: string)
    requires ranges != [] && forall i :: 0 <= i < |ranges| ==> Within(ranges[i], |content|)
    ensures Parts(ranges, boundary, contentType, content) ==
            OnePart(ranges[0], boundary, contentType, content) + Parts(ranges[1..], boundary, contentType, content)
    decreases |ranges|
  {
    hide OnePart;
    hide Parts;
    var k := |ranges| - 1;
    var first, last := OnePart(ranges[0], boundary, contentType, content), OnePart(ranges[k], boundary, contentType, content);
    PartsSnoc(ranges, boundary, contentType, content);
    if k == 0 {
      assert ranges[1..] == ranges[..0];
      assert "" + last == last == last + "";
    } else {
      PartsCons(ranges[..k], boundary, contentType, content);
      assert ranges[..k][1..] == ranges[1..][..k - 1];
      PartsSnoc(ranges[1..], boundary, contentType, content);
      AppendAssoc(first, Parts(ranges[1..][..k - 1], boundary, contentType, content), last);
    }
  }

  lemma RangeLineRead(field: string, rest: string, found: Option<Extent>, contentType: string)
    requires '\r' !in field && ReadContentRange(field).Some?
    ensures ReadHead("Content-Range: " + field + CRLF + (CRLF + rest), found, contentType) ==
            Some(Head(ReadContentRange(field).value, contentType, rest))
  {
    hide ReadContentRange;
    hide ReadHead;
    var line := "Content-Range: " + field;
    ReadLine(line, CRLF + rest, found, contentType);
    assert line[..15] == RANGE_FIELD && line[15..] == field;
    NotPrefix(TYPE_FIELD, line, 8);
    HeadEnds(rest, ReadContentRange(field).value, contentType);
  }

  lemma HeadEnds(rest: string, extent: Extent, contentType: string)
    ensures ReadHead(CRLF + rest, Some(extent), contentType) == Some(Head(extent, contentType, rest))
  {
    FindAtFront(CRLF, rest);
    var t := CRLF + rest;
    assert t[..0] == "" && t[2..] == rest;
  }

  lemma NotPrefix(a: string, b: string, i: nat)
    requires i < |a| && i < |b| && a[i] != b[i]
    ensures !(a <= b)
  {
  }

  lemma TypeLineRead(contentType: string, rest: string)
    requires '\r' !in contentType
    ensures ReadHead("Content-Type: " + contentType + CRLF + rest, None, "") == ReadHead(rest, None, contentType)
  {
    hide ReadHead;
    var line := "Content-Type: " + contentType;
    ReadLine(line, rest, None, "");
    NotPrefix(RANGE_FIELD, line, 8);
    assert line[..14] == TYPE_FIELD && line[14..] == contentType;
  }

  lemma FieldPlain(r: Range, n: nat)
    requires Within(r, n)
    ensures '\r' !in ContentRange(OffsetAndLength(r, n), n)
  {
    DigitsPlain(r.first);
    DigitsPlain(r.last);
    DigitsPlain(n);
    hide DecText;
  }

  lemma DigitsPlain(n: nat)
    ensures '\r' !in DecText(n)
  {
    var s := DecText(n);
    assert forall i :: 0 <= i < |s| ==> IsDigit(s[i]);
  }

  /** The head of a part, behind its delimiter line. */
  lemma HeadRead(r: Range, boundary: string, contentType: string, n: nat, rest: string)
    requires Within(r, n) && '\r' !in contentType
    ensures "--" + boundary + CRLF <= PartHead(r, boundary, contentType, n) + rest
    ensures ReadHead((PartHead(r, boundary, contentType, n) + rest)[|boundary| + 4..], None, "") ==
            Some(Head(Extent(r.first, r.last, n), contentType, rest))
  {
    hide ContentRange;
    hide ReadContentRange;
    hide ReadHead;
    FieldPlain(r, n);
    ContentRangeRead(r, n);
    var field := ContentRange(OffsetAndLength(r, n), n);
    var delimiter := "--" + boundary + CRLF;
    var ranged := "Content-Range: " + field + CRLF + (CRLF + rest);
    RangeLineRead(field, rest, None, contentType);
    var s := PartHead(r, boundary, contentType, n) + rest;
    if contentType != "" {
      TypeLineRead(contentType, ranged);
      assert s == delimiter + ("Content-Type: " + contentType + CRLF + ranged);
      assert s[|delimiter|..] == "Content-Type: " + contentType + CRLF + ranged;
    } else {
      assert s == delimiter + ranged;
      assert s[|delimiter|..] == ranged;
    }
  }

  lemma PartRead(r: Range, boundary: string, contentType: string, content: string, rest: string)
    requires Within(r, |content|) && '\r' !in contentType
    ensures ReadParts(OnePart(r, boundary, contentType, content) + rest, boundary) ==
            var more := ReadParts(rest, boundary);
            if more.None? then None
            else Some([ExcerptOf(r, contentType, content)] + more.value)
  {
    hide PartHead;
    hide ReadHead;
    var slice := Slice(r, content);
    var tail := slice + (CRLF + rest);
    var head := PartHead(r, boundary, contentType, |content|);
    var s := OnePart(r, boundary, contentType, content) + rest;
    assert s == head + tail;
    HeadRead(r, boundary, contentType, |content|, tail);
    NotClosing(boundary, s);
    hide ReadParts;
    ReadPart(s, boundary, Extent(r.first, r.last, |content|), contentType, slice, rest);
  }

  lemma NotClosing(boundary: string, s: string)
    requires "--" + boundary + CRLF <= s
    ensures s != "--" + boundary + "--"
  {
    assert s[|boundary| + 2] == ("--" + boundary + CRLF)[|boundary| + 2] == '\r';
    assert ("--" + boundary + "--")[|boundary| + 2] == '-';
  }

  /** A client that knows the boundary reads the body as exactly the served ranges, each with its positions, the size of
      the content, the type and the octets at these positions, whatever the content holds. */
  lemma {:induction false} MultipartRoundTrip(ranges: seq<Range>, boundary: string, contentType: string, content: string)
    requires forall i :: 0 <= i < |ranges| ==> Within(ranges[i], |content|)
    requires '\r' !in contentType
    ensures ReadParts(MultipartBody(ranges, boundary, contentType, content), boundary) == Some(Excerpts(ranges, contentType, content))
    decreases |ranges|
  {
    hide Parts;
    hide ReadParts;
    var closing := Closing(boundary);
    if ranges == [] {
      NoParts(boundary, contentType, content);
      assert Excerpts(ranges, contentType, content) == [];
    } else {
      var rest := MultipartBody(ranges[1..], boundary, contentType, content);
      var one := OnePart(ranges[0], boundary, contentType, content);
      PartsCons(ranges, boundary, contentType, content);
      AppendAssoc(one, Parts(ranges[1..], boundary, contentType, content), closing);
      PartRead(ranges[0], boundary, contentType, content, rest);
      MultipartRoundTrip(ranges[1..], boundary, contentType, content);
      assert Excerpts(ranges, contentType, content) == [ExcerptOf(ranges[0], contentType, content)] + Excerpts(ranges[1..], contentType, content);
    }
  }

  lemma NoParts(boundary: string, contentType: string, content: string)
    ensures ReadParts(Parts([], boundary, contentType, content) + Closing(boundary), boundary) == Some([])
  {
    assert "" + Closing(boundary) == "--" + boundary + "--";
  }
}
