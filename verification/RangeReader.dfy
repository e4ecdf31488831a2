/** What a client understands: the Content-Range field (RFC 9110 section 14.4) and the multipart/byteranges body
    (section 14.6), read without regard to how the server writes them. */
module RangeReader {
  import opened Text
  import opened Numbers

  /** `first-pos`, `last-pos` and `complete-length`. */
  datatype Extent = Extent(first: nat, last: nat, complete: nat)

  function ReadDigits(s: string): Option<nat> {
    if s == "" || !AllDigits(s) then None else Some(DecValue(s))
  }

  /** `bytes first-pos "-" last-pos "/" complete-length`; a field whose positions are not in order or not inside the
      complete length is invalid. */
  function ReadContentRange(field: string): Option<Extent> {
    if !("bytes " <= field) then None
    else
      var s := field[6..];
      var dash, slash := IndexOf(s, '-'), IndexOf(s, '/');
      if !(dash < slash < |s|) then None
      else
        var first, last, complete := ReadDigits(s[..dash]), ReadDigits(s[dash + 1..slash]), ReadDigits(s[slash + 1..]);
        if first.None? || last.None? || complete.None? then None
        else if !(first.value <= last.value < complete.value) then None
        else Some(Extent(first.value, last.value, complete.value))
  }

  const RANGE_FIELD: string := "Content-Range: "

  const TYPE_FIELD: string := "Content-Type: "

  datatype Head = Head(extent: Extent, contentType: string, rest: string)

  /** The header section of a part: its lines up to an empty one, of which the last Content-Range and the last Content-Type
      count. */
  function ReadHead(s: string, found: Option<Extent>, contentType: string): (h: Option<Head>)
    ensures h.Some? ==> |h.value.rest| < |s|
    decreases |s|
  {
    var pos := Find(s, CRLF);
    if pos == |s| then None
    else
      var line, rest := s[..pos], s[pos + 2..];
      if line == "" then (if found.Some? then Some(Head(found.value, contentType, rest)) else None)
      else
        ReadHead(rest,
                 if RANGE_FIELD <= line then ReadContentRange(line[|RANGE_FIELD|..]) else found,
                 if TYPE_FIELD <= line then line[|TYPE_FIELD|..] else contentType)
  }

  datatype Excerpt = Excerpt(extent: Extent, contentType: string, octets: string)

  /** All parts, each as long as its Content-Range says, up to the closing delimiter that ends the body. */
  function ReadParts(s: string, boundary: string): Option<seq<Excerpt>>
    decreases |s|
  {
    var dash := "--" + boundary;
    if s == dash + "--" then Some([])
    else if !(dash + CRLF <= s) then None
    else
      var head := ReadHead(s[|dash| + 2..], None, "");
      if head.None? then None
      else
        var Head(p, contentType, rest) := head.value;
        if p.first > p.last then None
        else
          var n := p.last - p.first + 1;
          if |rest| < n + 2 || rest[n..n + 2] != CRLF then None
          else
            var more := ReadParts(rest[n + 2..], boundary);
            if more.None? then None else Some([Excerpt(p, contentType, rest[..n])] + more.value)
  }

  lemma ReadLine(line: string, rest: string, found: Option<Extent>, contentType: string)
    requires line != "" && '\r' !in line
    ensures ReadHead(line + CRLF + rest, found, contentType) ==
            ReadHead(rest,
                     if RANGE_FIELD <= line then ReadContentRange(line[|RANGE_FIELD|..]) else found,
                     if TYPE_FIELD <= line then line[|TYPE_FIELD|..] else contentType)
  {
    hide ReadContentRange;
    var s := line + CRLF + rest;
    FirstCrlf(line, rest);
    assert s[..|line|] == line && s[|line| + 2..] == rest;
  }

  lemma ReadPart(s: string, boundary: string, extent: Extent, contentType: string, octets: string, rest: string)
    requires "--" + boundary + CRLF <= s && s != "--" + boundary + "--"
    requires ReadHead(s[|boundary| + 4..], None, "") == Some(Head(extent, contentType, octets + (CRLF + rest)))
    requires extent.first <= extent.last && |octets| == extent.last - extent.first + 1
    ensures ReadParts(s, boundary) ==
            var more := ReadParts(rest, boundary);
            if more.None? then None else Some([Excerpt(extent, contentType, octets)] + more.value)
  {
    hide ReadHead;
    var tail, n := octets + (CRLF + rest), |octets|;
    assert tail[..n] == octets && tail[n..n + 2] == CRLF && tail[n + 2..] == rest;
    assert |"--" + boundary| + 2 == |boundary| + 4;
  }

  lemma ReadNumber(n: nat)
    ensures ReadDigits(DecText(n)) == Some(n)
  {
    DecTextValue(n);
  }

  lemma FieldCut(a: string, b: string, c: string)
    requires '-' !in a && '/' !in a && '/' !in b
    ensures var s := a + "-" + b + "/" + c;
            && IndexOf(s, '-') == |a| && IndexOf(s, '/') == |a| + 1 + |b|
            && s[..|a|] == a && s[|a| + 1..|a| + 1 + |b|] == b && s[|a| + 1 + |b| + 1..] == c
            && |a| + 1 + |b| < |s|
  {
    var s := a + "-" + b + "/" + c;
    assert forall j :: 0 <= j < |a| ==> s[j] == a[j];
    assert forall j :: 0 <= j < |b| ==> s[|a| + 1 + j] == b[j];
    IndexOfIs(s, '-', |a|);
    IndexOfIs(s, '/', |a| + 1 + |b|);
  }

  /** The three numbers in decimal are read back. */
  lemma FieldBack(first: nat, last: nat, complete: nat)
    requires first <= last < complete
    ensures ReadContentRange("bytes " + DecText(first) + "-" + DecText(last) + "/" + DecText(complete)) ==
            Some(Extent(first, last, complete))
  {
    ReadNumber(first);
    ReadNumber(last);
    ReadNumber(complete);
    NoMark(first);
    NoMark(last);
    hide DecText;
    hide AllDigits;
    hide ReadDigits;
    hide IndexOf;
    var a, b, c := DecText(first), DecText(last), DecText(complete);
    var field := "bytes " + a + "-" + b + "/" + c;
    var s := a + "-" + b + "/" + c;
    assert field == "bytes " + s && field[..6] == "bytes " && field[6..] == s;
    FieldCut(a, b, c);
  }

  lemma NoMark(n: nat)
    ensures '-' !in DecText(n) && '/' !in DecText(n)
  {
    var s := DecText(n);
    assert forall i :: 0 <= i < |s| ==> IsDigit(s[i]);
  }
}
