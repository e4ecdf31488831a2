/** Which octets are a chunked body for the reader, and what they mean (RFC 9112 section 7.1), whoever wrote them. */
module ChunkGrammar {
  import opened Text
  import opened Numbers
  import opened Streams
  import opened LineReader
  import opened Dechunk
  import opened ContentReader

  /** A size line with its line end, and the data that it announces. */
  datatype Chunk = Chunk(line: string, data: string)

  /** A whole line: its only CRLF is at the end, and the reader has room for it. */
  ghost predicate WholeLine(line: string) {
    EndsWithCrlf(line) && Find(line, CRLF) == |line| - 2 && |line| <= MAX_LINE_LENGTH
  }

  /** The line begins with the hexadecimal number `n`; extensions and anything else behind it are ignored. */
  ghost predicate Announces(line: string, n: nat) {
    var size := Strtoul16(CStr(line));
    size.used > 0 && size.value == n && n != U64_MAX
  }

  ghost predicate GoodChunks(chunks: seq<Chunk>) {
    forall i :: 0 <= i < |chunks| ==>
      WholeLine(chunks[i].line) && chunks[i].data != "" && Announces(chunks[i].line, |chunks[i].data|)
  }

  function WireText(chunks: seq<Chunk>): string
    decreases |chunks|
  {
    if chunks == [] then "" else chunks[0].line + chunks[0].data + CRLF + WireText(chunks[1..])
  }

  function Payload(chunks: seq<Chunk>): string
    decreases |chunks|
  {
    if chunks == [] then "" else chunks[0].data + Payload(chunks[1..])
  }

  lemma WholeLineRead(line: string, rest: string, end: End)
    requires WholeLine(line)
    ensures LineFrom("", line + rest, end) == Line(true, line, rest)
  {
    hide Find;
    hide LineFrom;
    LineMeans(line + rest, end);
    FindStable(line, rest, CRLF);
    assert (line + rest)[..|line|] == line && (line + rest)[|line|..] == rest;
  }

  /** A line that is followed by something is a whole one. */
  lemma LineSplits(view: string, end: End)
    requires LineFrom("", view, end).ok
    ensures var l := LineFrom("", view, end);
            view == l.text + l.rest && (l.rest != "" ==> WholeLine(l.text)) && |l.rest| < |view|
  {
    hide Find;
    hide LineFrom;
    LineMeans(view, end);
    var p := Find(view, CRLF);
    if p < |view| && p + 2 <= MAX_LINE_LENGTH {
      var line := view[..p + 2];
      assert view[p..p + 2] == CRLF && line[p] == view[p..p + 2][0] && line[p + 1] == view[p..p + 2][1];
      assert view == line + view[p + 2..];
      forall j | 0 <= j < p ensures !OccursAt(line, CRLF, j) { OccursInPrefix(line, view[p + 2..], CRLF, j); }
      OccursAtIff(line, CRLF, p);
      FindIs(line, CRLF, p);
    }
  }

  lemma CrlfRead(rest: string, end: End)
    ensures LineFrom("", CRLF + rest, end) == Line(true, CRLF, rest) && CStr(CRLF) == CRLF
  {
    hide LineFrom;
    FindAtFront(CRLF, "");
    assert CRLF + "" == CRLF;
    WholeLineRead(CRLF, rest, end);
    IndexOfIs(CRLF, '\0', 2);
  }

  /** Good chunks up to a last one are read as their data, if these fit; what follows decides on success and trailers. */
  lemma {:induction false} ChunksRead(chunks: seq<Chunk>, last: string, rest: string, end: End, total: nat, limit: nat, rule: TrailerRule)
    requires GoodChunks(chunks) && total + |Payload(chunks)| <= limit
    requires LineFrom("", last + rest, end) == Line(true, last, rest) && Announces(last, 0)
    ensures var l := LineFrom("", WireText(chunks) + (last + rest), end);
            l.ok && FromSizeLine(l.text, l.rest, end, total, limit, rule) ==
                    AfterLastChunk(rest, end, rule).(payload := Payload(chunks))
    decreases |chunks|
  {
    hide LineFrom;
    hide FromSizeLine;
    hide AfterLastChunk;
    hide Strtoul16;
    hide CStr;
    hide WholeLine;
    if chunks == [] {
      assert WireText(chunks) + (last + rest) == last + rest;
      SizeLineStep(last, rest, end, total, limit, rule);
      TrailerPayload(rest, end, rule);
    } else {
      var Chunk(line, data) := chunks[0];
      var tail := WireText(chunks[1..]) + (last + rest);
      var view := data + (CRLF + tail);
      assert WireText(chunks) + (last + rest) == line + view;
      assert WholeLine(chunks[0].line) && Announces(chunks[0].line, |data|);
      WholeLineRead(line, view, end);
      SizeLineStep(line, view, end, total, limit, rule);
      assert view[..|data|] == data && view[|data|..] == CRLF + tail;
      CrlfRead(tail, end);
      ChunksRead(chunks[1..], last, rest, end, total + |data|, limit, rule);
    }
  }

  /** And nothing else is: what is read successfully consists of good chunks, a last one, and a readable rest. */
  lemma {:induction false} ChunksOnly(text: string, view: string, end: End, total: nat, limit: nat, rule: TrailerRule)
    returns (chunks: seq<Chunk>, last: string, rest: string)
    requires total <= limit && FromSizeLine(text, view, end, total, limit, rule).result == Success
    requires view != "" ==> WholeLine(text)
    ensures GoodChunks(chunks) && text + view == WireText(chunks) + (last + rest) && Announces(last, 0)
    ensures chunks != [] ==> LineFrom("", last + rest, end) == Line(true, last, rest)
    ensures chunks == [] ==> last == text && rest == view
    ensures total + |Payload(chunks)| <= limit
    ensures FromSizeLine(text, view, end, total, limit, rule) == AfterLastChunk(rest, end, rule).(payload := Payload(chunks))
    ensures AfterLastChunk(rest, end, rule).result == Success
    decreases |view|
  {
    hide LineFrom;
    hide FromSizeLine;
    hide AfterLastChunk;
    hide Strtoul16;
    hide CStr;
    hide WholeLine;
    SizeLineStep(text, view, end, total, limit, rule);
    var n := Strtoul16(CStr(text)).value;
    if n == 0 {
      chunks, last, rest := [], text, view;
      assert "" + (last + rest) == text + view;
      TrailerPayload(view, end, rule);
    } else {
      var data := view[..n];
      var l := LineFrom("", view[n..], end);
      LineSplits(view[n..], end);
      var next := LineFrom("", l.rest, end);
      LineSplits(l.rest, end);
      CrlfText(view[n..], l, end);
      var more;
      more, last, rest := ChunksOnly(next.text, next.rest, end, total + n, limit, rule);
      chunks := [Chunk(text, data)] + more;
      Rejoined(text, view, n, l.rest, more, last + rest);
      PayloadCons(Chunk(text, data), more);
      GoodCons(Chunk(text, data), more);
      hide GoodChunks;
      hide Announces;
    }
  }

  lemma PayloadCons(c: Chunk, more: seq<Chunk>)
    ensures Payload([c] + more) == c.data + Payload(more)
  {
    assert ([c] + more)[1..] == more;
  }

  lemma GoodCons(c: Chunk, more: seq<Chunk>)
    requires WholeLine(c.line) && c.data != "" && Announces(c.line, |c.data|) && GoodChunks(more)
    ensures GoodChunks([c] + more)
  {
    hide WholeLine;
    hide Announces;
  }

  lemma Rejoined(text: string, view: string, n: nat, after: string, more: seq<Chunk>, tail: string)
    requires n <= |view| && view[n..] == CRLF + after && after == WireText(more) + tail
    ensures text + view == WireText([Chunk(text, view[..n])] + more) + tail
  {
    assert ([Chunk(text, view[..n])] + more)[1..] == more;
    assert view == view[..n] + view[n..];
    assert text + view == text + view[..n] + CRLF + WireText(more) + tail;
  }

  /** The line behind the data is exactly a CRLF. */
  lemma CrlfText(view: string, l: Line, end: End)
    requires l == LineFrom("", view, end) && l.ok && CStr(l.text) == CRLF && l.rest != ""
    ensures l.text == CRLF
  {
    hide LineFrom;
    LineSplits(view, end);
    hide Find;
    assert l.text[..2] == CRLF by { assert CStr(l.text) == l.text[..2]; }
    if |l.text| > 2 {
      OccursAtFront(l.text, CRLF);
    }
  }

  /** A body that breaks off right behind the last size line is taken for a whole one. */
  lemma MissingEnd(end: End, rule: TrailerRule)
    ensures AfterLastChunk("", end, rule) == Body(Success, "", [])
  {
    LineStep("", "", end);
  }

  /** The octets are a chunked body of this payload. */
  ghost predicate IsBody(view: string, end: End, rule: TrailerRule, chunks: seq<Chunk>, last: string, rest: string) {
    && GoodChunks(chunks) && view == WireText(chunks) + (last + rest)
    && LineFrom("", last + rest, end) == Line(true, last, rest) && Announces(last, 0)
    && AfterLastChunk(rest, end, rule).result == Success
  }

  /** The reader succeeds exactly on chunked bodies whose payload fits the limit. */
  lemma DechunkedIff(view: string, end: End, limit: nat, rule: TrailerRule)
    ensures Dechunked(view, end, limit, rule).result == Success <==>
            exists chunks, last, rest :: IsBody(view, end, rule, chunks, last, rest) && |Payload(chunks)| <= limit
  {
    hide LineFrom;
    hide FromSizeLine;
    hide AfterLastChunk;
    hide Strtoul16;
    hide CStr;
    hide WholeLine;
    if Dechunked(view, end, limit, rule).result == Success {
      var l := LineFrom("", view, end);
      LineSplits(view, end);
      var chunks, last, rest := ChunksOnly(l.text, l.rest, end, 0, limit, rule);
      assert IsBody(view, end, rule, chunks, last, rest);
    }
    if chunks, last, rest :| IsBody(view, end, rule, chunks, last, rest) && |Payload(chunks)| <= limit {
      BodyRead(view, end, limit, rule, chunks, last, rest);
    }
  }

  /** And then it delivers that payload and the trailers behind the last chunk. */
  lemma BodyRead(view: string, end: End, limit: nat, rule: TrailerRule, chunks: seq<Chunk>, last: string, rest: string)
    requires IsBody(view, end, rule, chunks, last, rest) && |Payload(chunks)| <= limit
    ensures Dechunked(view, end, limit, rule) == Body(Success, Payload(chunks), AfterLastChunk(rest, end, rule).trailers)
  {
    hide LineFrom;
    hide FromSizeLine;
    hide AfterLastChunk;
    hide Strtoul16;
    hide CStr;
    hide WholeLine;
    ChunksRead(chunks, last, rest, end, 0, limit, rule);
  }
}
