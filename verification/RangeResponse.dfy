/** Responses to range requests: slices, multipart/byteranges bodies and their lengths (RFC 9110 sections 14.4 and
    14.6). */
module RangeResponse {
  import opened Text
  import opened Numbers
  import opened RangeHeader
  import opened RangeCheck
  import opened RangeCoverage
  import opened RangeReader

  /** `get_range_offset_and_length`; its assertions are the precondition. */
  function OffsetAndLength(r: Range, n: nat): (p: (nat, nat))
    requires Within(r, n)
    ensures p.1 > 0 && p.0 + p.1 <= n
    ensures forall pos :: In(r, pos) <==> p.0 <= pos < p.0 + p.1
  {
    (r.first, r.last - r.first + 1)
  }

  /** `make_content_range_header_field` */
  function ContentRange(p: (nat, nat), n: nat): string
    requires p.1 > 0
  {
    "bytes " + ToString(p.0) + "-" + ToString(p.0 + p.1 - 1) + "/" + ToString(n)
  }

  /** A client reads the field as exactly the first and last position of the range and the size of the content. */
  lemma ContentRangeRead(r: Range, n: nat)
    requires Within(r, n)
    ensures ReadContentRange(ContentRange(OffsetAndLength(r, n), n)) == Some(Extent(r.first, r.last, n))
  {
    hide ReadContentRange;
    FieldBack(r.first, r.last, n);
  }

  function Slice(r: Range, content: string): string
    requires Within(r, |content|)
  {
    content[r.first..r.last + 1]
  }

  function PartHead(r: Range, boundary: string, contentType: string, n: nat): string
    requires Within(r, n)
  {
    "--" + boundary + CRLF + (if contentType != "" then "Content-Type: " + contentType + CRLF else "")
    + "Content-Range: " + ContentRange(OffsetAndLength(r, n), n) + CRLF + CRLF
  }

  function Parts(ranges: seq<Range>, boundary: string, contentType: string, content: string): string
    requires forall i :: 0 <= i < |ranges| ==> Within(ranges[i], |content|)
    decreases |ranges|
  {
    if ranges == [] then ""
    else
      var k := |ranges| - 1;
      Parts(ranges[..k], boundary, contentType, content)
      + PartHead(ranges[k], boundary, contentType, |content|) + Slice(ranges[k], content) + CRLF
  }

  function Closing(boundary: string): string { "--" + boundary + "--" }

  function MultipartBody(ranges: seq<Range>, boundary: string, contentType: string, content: string): string
    requires forall i :: 0 <= i < |ranges| ==> Within(ranges[i], |content|)
  {
    Parts(ranges, boundary, contentType, content) + Closing(boundary)
  }

  /** `process_multipart_ranges_data` with the tokens of one part appended. */
  method AppendPart(data0: string, r: Range, boundary: string, contentType: string, content: string) returns (data: string)
    requires Within(r, |content|)
    ensures data == data0 + (PartHead(r, boundary, contentType, |content|) + Slice(r, content) + CRLF)
  {
    hide ContentRange;
    var head := "--" + boundary + CRLF;
    if contentType != "" { head := head + "Content-Type: " + contentType + CRLF; }
    else { assert head + "" == head; }
    var p := OffsetAndLength(r, |content|);
    head := head + "Content-Range: " + ContentRange(p, |content|) + CRLF + CRLF;
    assert head == PartHead(r, boundary, contentType, |content|) by {
      HeadAssoc(boundary, contentType, ContentRange(p, |content|));
    }
    assert content[p.0..p.0 + p.1] == Slice(r, content);
    data := data0 + (head + content[p.0..p.0 + p.1] + CRLF);
  }

  lemma HeadAssoc(boundary: string, contentType: string, field: string)
    ensures "--" + boundary + CRLF + "Content-Type: " + contentType + CRLF + "Content-Range: " + field + CRLF + CRLF
         == "--" + boundary + CRLF + ("Content-Type: " + contentType + CRLF) + "Content-Range: " + field + CRLF + CRLF
  {
    assert "--" + boundary + CRLF + "Content-Type: " + contentType + CRLF
        == "--" + boundary + CRLF + ("Content-Type: " + contentType + CRLF);
  }

  /** `make_multipart_ranges_data` */
  method MakeMultipartRangesData(ranges: seq<Range>, boundary: string, contentType: string, content: string) returns (data: string)
    requires forall i :: 0 <= i < |ranges| ==> Within(ranges[i], |content|)
    ensures data == MultipartBody(ranges, boundary, contentType, content)
  {
    hide PartHead;
    hide Slice;
    data := "";
    for i := 0 to |ranges|
      invariant data == Parts(ranges[..i], boundary, contentType, content)
    {
      assert ranges[..i + 1][..i] == ranges[..i];
      ghost var before := data;
      data := AppendPart(data, ranges[i], boundary, contentType, content);
      PartsAssoc(before, PartHead(ranges[i], boundary, contentType, |content|), Slice(ranges[i], content));
    }
    assert ranges[..|ranges|] == ranges;
    data := data + "--" + boundary + "--";
    AssocClosing(Parts(ranges, boundary, contentType, content), boundary);
  }

  lemma PartsAssoc(a: string, b: string, c: string)
    ensures a + (b + c + CRLF) == a + b + c + CRLF
  {
  }

  lemma AssocClosing(a: string, boundary: string)
    ensures a + "--" + boundary + "--" == a + Closing(boundary)
  {
  }

  /** `get_multipart_ranges_data_length`: the length of the body that a content of `n` octets gives, whatever it is. */
  method GetMultipartRangesDataLength(ranges: seq<Range>, boundary: string, contentType: string, n: nat, ghost content: string)
    returns (length: nat)
    requires |content| == n
    requires forall i :: 0 <= i < |ranges| ==> Within(ranges[i], n)
    ensures length == |MultipartBody(ranges, boundary, contentType, content)|
  {
    hide ContentRange;
    length := 0;
    for i := 0 to |ranges|
      invariant length == |Parts(ranges[..i], boundary, contentType, content)|
    {
      assert ranges[..i + 1][..i] == ranges[..i];
      length := length + 2 + |boundary| + 2;
      if contentType != "" { length := length + 14 + |contentType| + 2; }
      var p := OffsetAndLength(ranges[i], n);
      length := length + 15 + |ContentRange(p, n)| + 2 + 2;
      length := length + p.1;
      length := length + 2;
    }
    assert ranges[..|ranges|] == ranges;
    length := length + 2 + |boundary| + 2;
  }

  // ---------- Where the slices are ----------

  lemma {:induction false} PartsSplit(ranges: seq<Range>, i: nat, boundary: string, contentType: string, content: string) returns (rest: string)
    requires forall j :: 0 <= j < |ranges| ==> Within(ranges[j], |content|)
    requires i < |ranges|
    ensures Parts(ranges, boundary, contentType, content) ==
            Parts(ranges[..i], boundary, contentType, content) + PartHead(ranges[i], boundary, contentType, |content|)
            + Slice(ranges[i], content) + (CRLF + rest)
    decreases |ranges|
  {
    hide PartHead;
    hide Slice;
    var k := |ranges| - 1;
    if i == k {
      rest := "";
      assert CRLF + "" == CRLF;
    } else {
      var more := PartsSplit(ranges[..k], i, boundary, contentType, content);
      assert ranges[..k][..i] == ranges[..i];
      var head, slice := PartHead(ranges[k], boundary, contentType, |content|), Slice(ranges[k], content);
      rest := more + head + slice + CRLF;
      var a := Parts(ranges[..i], boundary, contentType, content) + PartHead(ranges[i], boundary, contentType, |content|)
               + Slice(ranges[i], content);
      FiveAssoc(a, CRLF, more, head, slice);
    }
  }

  lemma FiveAssoc(a: string, b: string, c: string, d: string, e: string)
    ensures a + (b + c) + d + e + CRLF == a + (b + (c + d + e + CRLF))
  {
  }

  // ---------- apply_ranges ----------

  /** What a client gets for ranges that passed the check. */
  function Served(ranges: seq<Range>, boundary: string, contentType: string, content: string): string
    requires forall i :: 0 <= i < |ranges| ==> Within(ranges[i], |content|)
  {
    if ranges == [] then content
    else if |ranges| == 1 then Slice(ranges[0], content)
    else MultipartBody(ranges, boundary, contentType, content)
  }

  /** The `Content-Length` that a content provider of this content is announced with. */
  function DeclaredLength(ranges: seq<Range>, status: int, boundary: string, contentType: string, content: string): nat
    requires status == 206 ==> forall i :: 0 <= i < |ranges| ==> Within(ranges[i], |content|)
  {
    if ranges == [] || status != 206 then |content|
    else if |ranges| == 1 then OffsetAndLength(ranges[0], |content|).1
    else |MultipartBody(ranges, boundary, contentType, content)|
  }

  /** A response with a body, or with a content provider of `providerLength` octets. */
  class Response {
    var status: int
    var body: string
    var providerLength: nat
    var contentType: string
    var contentRange: Option<string>
    var contentLength: Option<string>

    constructor (status: int, body: string, providerLength: nat, contentType: string)
      ensures this.status == status && this.body == body && this.providerLength == providerLength
      ensures this.contentType == contentType && contentRange == None && contentLength == None
    {
      this.status, this.body, this.providerLength, this.contentType := status, body, providerLength, contentType;
      contentRange, contentLength := None, None;
    }

    /** The octets that ranges refer to. */
    function Size(): nat
      reads this
    {
      if body == "" then providerLength else |body|
    }

    /** `apply_ranges` without compression; `boundary` is the random one. What a provider would write is `content`. The
        boundary and the type of the parts are handed on, and are empty unless several ranges are sent. */
    method ApplyRanges(ranges: seq<Range>, boundary: string, ghost content: string) returns (used: string, partType: string)
      requires status == 206 ==> forall i :: 0 <= i < |ranges| ==> Within(ranges[i], Size())
      requires |content| == Size() && (body != "" ==> content == body)
      modifies this
      ensures status == old(status) && providerLength == old(providerLength)
      ensures var several := |ranges| > 1 && status == 206;
              && used == (if several then boundary else "") && partType == (if several then old(contentType) else "")
              && contentType == if several then "multipart/byteranges; boundary=" + boundary else old(contentType)
      ensures status == 206 && |ranges| == 1 && old(Size()) > 0 ==>
                && contentRange == Some(ContentRange(OffsetAndLength(ranges[0], old(Size())), old(Size())))
                && ReadContentRange(contentRange.value) == Some(Extent(ranges[0].first, ranges[0].last, old(Size())))
      ensures status != 206 || |ranges| != 1 ==> contentRange == old(contentRange)
      ensures body == if status == 206 && old(body) != "" then Served(ranges, boundary, old(contentType), old(body)) else old(body)
      ensures contentLength == if old(body) == "" && providerLength > 0
                               then Some(ToString(DeclaredLength(ranges, status, boundary, old(contentType), content)))
                               else old(contentLength)
    {
      hide ContentRange;
      hide ReadContentRange;
      if status == 206 && |ranges| == 1 && Size() > 0 { ContentRangeRead(ranges[0], Size()); }
      used, partType := "", "";
      if |ranges| > 1 && status == 206 {
        used, partType := boundary, contentType;
        contentType := "multipart/byteranges; boundary=" + boundary;
      }
      if body == "" {
        if providerLength > 0 {
          var length := 0;
          if ranges == [] || status != 206 {
            length := providerLength;
          } else if |ranges| == 1 {
            var p := OffsetAndLength(ranges[0], providerLength);
            length := p.1;
            contentRange := Some(ContentRange(p, providerLength));
          } else {
            length := GetMultipartRangesDataLength(ranges, used, partType, providerLength, content);
          }
          contentLength := Some(ToString(length));
        }
      } else if ranges == [] || status != 206 {
      } else if |ranges| == 1 {
        var p := OffsetAndLength(ranges[0], |body|);
        contentRange := Some(ContentRange(p, |body|));
        body := body[p.0..p.0 + p.1];
      } else {
        body := MakeMultipartRangesData(ranges, used, partType, body);
      }
    }
  }

  /** What passed the check is within the content, and covers what the normalised request covered. */
  lemma CheckedRanges(was: seq<Range>, n: int, out: seq<Range>)
    requires !Rejected(was, n) && CoalesceOf(Normals(was, n), n, out)
    ensures && AllWithin(out, n) && |out| <= |was| <= RANGE_MAX_COUNT && (was != [] ==> out != [])
            && forall pos :: Covers(out, pos) <==> Covers(Normals(was, n), pos)
  {
    hide Coalesced;
    hide CoalesceOf;
    hide Covers;
    var sorted := CoalesceSorted(Normals(was, n), n, out);
    CoalescePreservesCoverage(Normals(was, n), sorted, n);
  }

  /** A position is asked for by a range of the request. */
  ghost predicate Asked(ranges: seq<Range>, n: int, pos: int) {
    exists i :: 0 <= i < |ranges| && Wanted(ranges[i], n, pos)
  }

  lemma CoversAsked(was: seq<Range>, n: nat, pos: int)
    requires forall i :: 0 <= i < |was| ==> ValidRange(was[i])
    requires AllWithin(Normals(was, n), n)
    ensures Covers(Normals(was, n), pos) <==> Asked(was, n, pos)
  {
    hide ValidRange;
    hide Normal;
    hide Wanted;
    var normals := Normals(was, n);
    forall i | 0 <= i < |was| ensures In(normals[i], pos) <==> Wanted(was[i], n, pos) {
      assert Within(normals[i], n);
      NormalMeaning(was[i], n, pos);
    }
  }

  lemma ParsedValid(s: string)
    requires ParseRanges(s).Some?
    ensures forall i :: 0 <= i < |ParseRanges(s).value| ==>
              var r := ParseRanges(s).value[i]; ValidRange(r) && IsSsize(r.first) && IsSsize(r.last)
    ensures ParseRanges(s).value != []
  {
    PiecesValid(Split(s[6..], ','));
  }

  lemma {:induction false} PiecesValid(pieces: seq<string>)
    ensures ParsePieces(pieces).Some? ==>
              forall i :: 0 <= i < |ParsePieces(pieces).value| ==>
                var r := ParsePieces(pieces).value[i]; ValidRange(r) && IsSsize(r.first) && IsSsize(r.last)
    decreases |pieces|
  {
    hide ParsePiece;
    if pieces != [] {
      PieceValid(pieces[0]);
      PiecesValid(pieces[1..]);
    }
  }

  lemma PieceValid(p: string)
    ensures ParsePiece(p).Some? ==>
              var r := ParsePiece(p).value; ValidRange(r) && IsSsize(r.first) && IsSsize(r.last)
  {
    hide IndexOf;
  }

  /** From the header to the response, for a handler that leaves the status 206 to the library: refused are a header
      that does not parse and ranges that fail the check; otherwise the ranges served lie within the body and cover
      exactly the positions the header asks for. */
  method ServeRanges(header: string, content: string, contentType: string, boundary: string)
    returns (status: int, body: string, ranges: seq<Range>)
    requires |content| <= SSIZE_MAX
    ensures status == 206 || status == 416
    ensures status == 416 <==> ParseRanges(header).None? || Rejected(ParseRanges(header).value, |content|)
    ensures status == 416 ==> body == ""
    ensures status == 206 ==> ranges != [] && AllWithin(ranges, |content|)
    ensures status == 206 ==> body == Served(ranges, boundary, contentType, content)
    ensures status == 206 ==>
              forall pos :: Covers(ranges, pos) <==> Asked(ParseRanges(header).value, |content|, pos)
  {
    hide Rejected;
    hide CoalesceOf;
    hide Served;
    hide Asked;
    hide Covers;
    hide ParseRanges;
    hide ValidRange;
    var ok, parsed := ParseRangeHeader(header);
    if !ok { return 416, "", []; }
    ParsedValid(header);
    var req := new Request(parsed);
    var err;
    err := req.RangeError(206, |content|);
    if err { return 416, "", []; }
    CheckedRanges(parsed, |content|, req.ranges);
    assert AllWithin(Normals(parsed, |content|), |content|) by { NotRejected(parsed, |content|); }
    forall pos ensures Covers(Normals(parsed, |content|), pos) <==> Asked(parsed, |content|, pos) {
      CoversAsked(parsed, |content|, pos);
    }
    var res := new Response(206, content, 0, contentType);
    ServedNonEmpty(req.ranges, |content|);
    var used, partType := res.ApplyRanges(req.ranges, boundary, content);
    status, body, ranges := 206, res.body, req.ranges;
  }

  lemma ServedNonEmpty(ranges: seq<Range>, n: nat)
    requires ranges != [] && AllWithin(ranges, n)
    ensures n > 0
  {
    assert Within(ranges[0], n);
  }

  lemma NotRejected(was: seq<Range>, n: int)
    requires !Rejected(was, n)
    ensures AllWithin(Normals(was, n), n)
  {
  }

  // ---------- Content providers ----------

  /** `write_content_with_provider` for a provider of known length that writes what it is asked for; the ranges are taken
      as they are, whatever the status. */
  method WriteContentWithProvider(ranges: seq<Range>, boundary: string, contentType: string, content: string) returns (written: string)
    requires forall i :: 0 <= i < |ranges| ==> Within(ranges[i], |content|)
    ensures written == Served(ranges, boundary, contentType, content)
  {
    if ranges == [] {
      written := content;
    } else if |ranges| == 1 {
      var p := OffsetAndLength(ranges[0], |content|);
      written := content[p.0..p.0 + p.1];
    } else {
      written := MakeMultipartRangesData(ranges, boundary, contentType, content);
    }
  }

  /** What it writes with the boundary and type that `apply_ranges` hands on. */
  function Written(ranges: seq<Range>, status: int, boundary: string, contentType: string, content: string): string
    requires forall i :: 0 <= i < |ranges| ==> Within(ranges[i], |content|)
  {
    if |ranges| > 1 && status == 206 then Served(ranges, boundary, contentType, content)
    else Served(ranges, "", "", content)
  }

  /** The request carries this header, and `range_error` leaves these ranges on a response of `n` octets. */
  ghost predicate Requested(header: string, status: int, n: int, ranges: seq<Range>) {
    && ParseRanges(header).Some?
    && var parsed := ParseRanges(header).value;
       if 200 <= status < 300 then !Rejected(parsed, n) && CoalesceOf(Normals(parsed, n), n, ranges) else ranges == parsed
  }

  /** The assertions on the ranges hold, and the length announced is the length written. */
  ghost predicate Consistent(ranges: seq<Range>, status: int, boundary: string, contentType: string, content: string) {
    && AllWithin(ranges, |content|)
    && |Written(ranges, status, boundary, contentType, content)| == DeclaredLength(ranges, status, boundary, contentType, content)
  }

  /** With the status 206 every request is answered consistently. */
  lemma PartialConsistent(header: string, boundary: string, contentType: string, content: string, ranges: seq<Range>)
    requires Requested(header, 206, |content|, ranges)
    ensures Consistent(ranges, 206, boundary, contentType, content)
  {
    hide Rejected;
    hide CoalesceOf;
    hide ParseRanges;
    hide Parts;
    hide Covers;
    CheckedRanges(ParseRanges(header).value, |content|, ranges);
  }

  lemma PrintedHeader(ranges: seq<Range>)
    requires ranges != [] && forall i :: 0 <= i < |ranges| ==> ValidRange(ranges[i]) && ranges[i].first <= 1 && ranges[i].last <= 1
    ensures ParseRanges(PREFIX + RangesText(ranges)) == Some(ranges)
  {
    HeaderRoundTrip(ranges);
  }

  /** On another 2xx status the first octet is written, and the length of the whole content is announced. */
  lemma FirstOctetOnly(status: int, n: int)
    requires 200 <= status < 300 && n > 0
    ensures var ranges := [Range(0, 0)]; Requested(PREFIX + RangesText(ranges), status, n, ranges)
  {
    var ranges := [Range(0, 0)];
    PrintedHeader(ranges);
    assert Normals(ranges, n) == ranges;
    OverlapCountBelow(ranges);
  }

  /** If that octet is the whole content, it can be asked for twice. */
  lemma OctetTwice(status: int)
    requires 200 <= status < 300
    ensures var ranges := [Range(0, 0), Range(0, 0)]; Requested(PREFIX + RangesText(ranges), status, 1, ranges)
  {
    var r := Range(0, 0);
    var ranges := [r, r];
    PrintedHeader(ranges);
    assert Normals(ranges, 1) == ranges;
    OverlapCountBelow(ranges);
    hide OverlapCount;
    TwinsStay(r, 1);
  }

  lemma TwinsStay(r: Range, n: int)
    requires Within(r, n)
    ensures CoalesceOf([r, r], n, [r, r])
  {
    hide Coalesced;
    var none: seq<Range> := [];
    CoalescedNothing(n);
    CoalescedStep(none, r, n);
    assert none + [r] == [r];
    CoalescedStep([r], r, n);
    MergeFirst(r);
    assert [r] + [r] == [r, r] && Merge([r], r) == [r, r];
    assert SortOf([r, r], [r, r]);
  }

  /** On a status that is no success nothing is checked, and the open end of the range meets the assertion. */
  lemma OpenRange(status: int, n: int)
    requires !(200 <= status < 300)
    ensures var ranges := [Range(0, -1)];
            Requested(PREFIX + RangesText(ranges), status, n, ranges) && !AllWithin(ranges, n)
  {
    var ranges := [Range(0, -1)];
    PrintedHeader(ranges);
    assert !Within(ranges[0], n);
  }

  lemma NotConsistent(status: int, boundary: string, contentType: string, content: string) returns (header: string, ranges: seq<Range>)
    requires status != 206 && content != ""
    ensures Requested(header, status, |content|, ranges) && !Consistent(ranges, status, boundary, contentType, content)
  {
    hide Requested;
    hide Parts;
    if !(200 <= status < 300) {
      ranges := [Range(0, -1)];
      OpenRange(status, |content|);
    } else if |content| == 1 {
      ranges := [Range(0, 0), Range(0, 0)];
      OctetTwice(status);
      assert |Closing("")| > 1;
    } else {
      ranges := [Range(0, 0)];
      FirstOctetOnly(status, |content|);
    }
    header := PREFIX + RangesText(ranges);
  }

  /** For content that a provider writes: the assertions hold and the length announced is the length written, for every
      request that passes the parser and the check, exactly when the response has the status 206. */
  lemma ProviderConsistentIff(status: int, boundary: string, contentType: string, content: string)
    requires content != ""
    ensures (forall header, ranges :: Requested(header, status, |content|, ranges) ==>
               Consistent(ranges, status, boundary, contentType, content))
       <==> status == 206
  {
    hide Requested;
    hide Consistent;
    if status == 206 {
      forall header, ranges | Requested(header, 206, |content|, ranges)
        ensures Consistent(ranges, 206, boundary, contentType, content)
      {
        PartialConsistent(header, boundary, contentType, content, ranges);
      }
    } else {
      var header, ranges := NotConsistent(status, boundary, contentType, content);
    }
  }

  /** Distinct ranges transfer every requested octet once. */
  lemma SlicesOnce(was: seq<Range>, n: nat, out: seq<Range>)
    requires !Rejected(was, n) && CoalesceOf(Normals(was, n), n, out) && Distinct(Normals(was, n))
    ensures TotalLength(out) == |Positions(Normals(was, n), n)| <= n && Apart(out)
  {
    hide Coalesced;
    hide CoalesceOf;
    var sorted := CoalesceSorted(Normals(was, n), n, out);
    DistinctCoalesceApart(Normals(was, n), sorted, n);
    var all := Interval(Range(0, n - 1));
    IntervalSize(Range(0, n - 1));
    Subset(Positions(Normals(was, n), n), all);
  }

  lemma Subset(a: set<int>, b: set<int>)
    requires a <= b
    ensures |a| <= |b|
  {
    assert |b| == |a| + |b - a| by { assert b == a + (b - a); }
  }
}
