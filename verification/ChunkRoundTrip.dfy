/** Chunked transfer coding, written and read back (RFC 9112 section 7.1). */
module ChunkRoundTrip {
  import opened Text
  import opened FieldLine
  import opened Numbers
  import opened Streams
  import opened LineReader
  import opened Dechunk
  import opened ContentReader
  import Writer = ChunkWriter

  // ---------- What the writer puts on the wire ----------

  function ChunkTexts(writes: seq<string>): string {
    if writes == [] then "" else Writer.ChunkText(writes[0]) + ChunkTexts(writes[1..])
  }

  lemma {:induction false} ChunkTextsConcat(a: seq<string>, b: seq<string>)
    ensures ChunkTexts(a + b) == ChunkTexts(a) + ChunkTexts(b)
  {
    hide Writer.ChunkText;
    if a == [] {
      assert a + b == b;
    } else {
      assert (a + b)[1..] == a[1..] + b;
      ChunkTextsConcat(a[1..], b);
    }
  }

  function Writes(writes: seq<string>): (actions: seq<Writer.Action>)
    ensures |actions| == |writes|
    ensures forall i :: 0 <= i < |writes| ==> actions[i] == Writer.Write(writes[i])
  {
    seq(|writes|, i requires 0 <= i < |writes| => Writer.Write(writes[i]))
  }

  /** Everything the provider does, over all its calls. */
  function AllActions(calls: seq<Writer.Call>): seq<Writer.Action> {
    if calls == [] then [] else calls[0].actions + AllActions(calls[1..])
  }

  predicate NonEmpty(writes: seq<string>) {
    forall i :: 0 <= i < |writes| ==> 0 < |writes[i]| < U64_MAX
  }

  lemma {:induction false} WritesText(writes: seq<string>)
    requires NonEmpty(writes)
    ensures Writer.ActionsText(Writes(writes)) == ChunkTexts(writes)
    ensures Writer.Continues(Writes(writes))
  {
    hide Writer.ChunkText;
    if writes == [] {
    } else {
      var n := |writes| - 1;
      assert writes == writes[..n] + [writes[n]];
      assert Writes(writes) == Writes(writes[..n]) + [Writer.Write(writes[n])];
      WritesText(writes[..n]);
      Writer.ActionsSnoc(Writes(writes[..n]), Writer.Write(writes[n]));
      ChunkTextsConcat(writes[..n], [writes[n]]);
      assert [writes[n]][1..] == [];
      assert ChunkTexts([writes[n]]) == Writer.ChunkText(writes[n]);
    }
  }

  /** However the provider spreads its writes and the final `done` over its calls, the text is the same. */
  lemma {:induction false} SpreadText(calls: seq<Writer.Call>, writes: seq<string>, trailer: seq<Field>)
    requires NonEmpty(writes)
    requires AllActions(calls) == Writes(writes) + [Writer.Done(trailer)]
    ensures Writer.TextOf(calls) == Writer.Produced(ChunkTexts(writes) + Writer.DoneText(trailer), true)
  {
    hide Writer.ActionsText;
    hide Writer.Continues;
    hide Writer.DoneText;
    hide ChunkTexts;
    var all := AllActions(calls);
    assert calls != [];
    var first := calls[0].actions;
    var k := |first|;
    assert first == all[..k] && AllActions(calls[1..]) == all[k..];
    if k == |all| {
      assert first == Writes(writes) + [Writer.Done(trailer)];
      WritesText(writes);
      Writer.ActionsSnoc(Writes(writes), Writer.Done(trailer));
    } else {
      assert first == Writes(writes[..k]);
      WritesText(writes[..k]);
      assert all[k..] == Writes(writes[k..]) + [Writer.Done(trailer)];
      SpreadText(calls[1..], writes[k..], trailer);
      assert writes == writes[..k] + writes[k..];
      ChunkTextsConcat(writes[..k], writes[k..]);
      AppendAssoc(ChunkTexts(writes[..k]), ChunkTexts(writes[k..]), Writer.DoneText(trailer));
    }
  }

  // ---------- Short lines ----------

  function Pow16(k: nat): nat { if k == 0 then 1 else 16 * Pow16(k - 1) }

  lemma {:induction false} HexTextShort(n: nat, k: nat)
    requires n < Pow16(k) && k > 0
    ensures |HexText(n)| <= k
    decreases k
  {
    if n >= 16 { HexTextShort(n / 16, k - 1); }
  }

  lemma CStrClean(s: string)
    requires '\0' !in s
    ensures CStr(s) == s
  {
    IndexOfIs(s, '\0', |s|);
  }

  lemma SizeLine(n: nat, rest: string, end: End)
    requires n < U64_MAX
    ensures var text := HexText(n) + CRLF;
            && LineFrom("", text + rest, end) == Line(true, text, rest)
            && Strtoul16(CStr(text)) == Parsed(n, |HexText(n)|)
  {
    hide LineFrom;
    hide Strtoul16;
    hide CStr;
    assert Pow16(4) == 0x1_0000;
    assert Pow16(8) == 0x1_0000_0000;
    assert Pow16(12) == 0x1_0000_0000_0000;
    assert Pow16(16) == 0x1_0000_0000_0000_0000;
    HexTextShort(n, 16);
    assert AllHex(HexText(n));
    hide HexText;
    LineIs("", HexText(n), rest, end);
    assert "" + HexText(n) + CRLF == HexText(n) + CRLF;
    CStrClean(HexText(n) + CRLF);
    StrtoulOfHexText(n, CRLF);
  }

  lemma EmptyLine(rest: string, end: End)
    ensures LineFrom("", CRLF + rest, end) == Line(true, CRLF, rest) && CStr(CRLF) == CRLF
  {
    assert "" + CRLF + rest == CRLF + rest && "" + "" + CRLF == CRLF;
    LineIs("", "", rest, end);
    CStrClean(CRLF);
  }

  // ---------- Trailers ----------

  predicate GoodTrailer(f: Field) {
    IsFieldName(f.key) && IsFieldValue(f.val) && |f.key| + |f.val| + 4 <= TRAILER_MAX_LENGTH
  }

  predicate GoodTrailers(fields: seq<Field>) {
    forall i :: 0 <= i < |fields| ==> GoodTrailer(fields[i])
  }

  /** The announced fields, as they are stored. */
  function Kept(fields: seq<Field>, rule: TrailerRule): seq<Field> {
    if fields == [] then []
    else
      var f := fields[0];
      (if rule.declared(f.key) then [Field(f.key, StoredValue(f.key, f.val, rule.decode))] else [])
      + Kept(fields[1..], rule)
  }

  lemma {:induction false} FieldTextsCons(f: Field, fields: seq<Field>)
    ensures Writer.FieldTexts([f] + fields) == Writer.FieldText(f) + Writer.FieldTexts(fields)
  {
    hide Writer.FieldText;
    var all := [f] + fields;
    if fields == [] {
      assert all == [f] && all[..0] == [];
    } else {
      var n := |fields| - 1;
      assert all[..|all| - 1] == [f] + fields[..n];
      FieldTextsCons(f, fields[..n]);
    }
  }

  lemma FieldClean(f: Field)
    requires GoodTrailer(f)
    ensures var text := Writer.FieldText(f);
            && '\r' !in f.key + ": " + f.val && '\0' !in text
            && f.key != "" && |text| <= TRAILER_MAX_LENGTH
  {
    var line := f.key + ": " + f.val;
    forall i | 0 <= i < |line| ensures line[i] != '\r' && line[i] != '\0' {
      if i < |f.key| {
        assert IsTokenChar(f.key[i]);
      } else if i >= |f.key| + 2 {
        assert line[i] == f.val[i - |f.key| - 2];
      }
    }
  }

  lemma FieldLineText(f: Field, rest: string, end: End, rule: TrailerRule)
    requires GoodTrailer(f)
    ensures var text := Writer.FieldText(f);
            && LineFrom("", text + rest, end) == Line(true, text, rest)
            && CStr(text) == text && text != CRLF && |text| <= TRAILER_MAX_LENGTH
            && TrailerField(text, rule) ==
               (if rule.declared(f.key) then [Field(f.key, StoredValue(f.key, f.val, rule.decode))] else [])
  {
    hide LineFrom;
    hide CStr;
    hide ParseField;
    hide StoredValue;
    var line := f.key + ": " + f.val;
    var text := Writer.FieldText(f);
    assert text == line + CRLF && text[..|text| - 2] == line;
    FieldClean(f);
    hide IsFieldName;
    hide IsFieldValue;
    LineIs("", line, rest, end);
    assert "" + line + CRLF == text;
    CStrClean(text);
    ParseFieldLine(f.key, f.val, rule.decode);
  }

  lemma {:induction false} TrailersBack(fields: seq<Field>, got: seq<Field>, rest: string, end: End, rule: TrailerRule)
    requires GoodTrailers(fields) && |got| + |fields| <= TRAILER_MAX_COUNT
    ensures var l := LineFrom("", Writer.FieldTexts(fields) + CRLF + rest, end);
            l.ok && TrailerSection(l.text, l.rest, end, got, rule) == Body(Success, "", got + Kept(fields, rule))
    decreases |fields|
  {
    hide LineFrom;
    hide TrailerSection;
    hide CStr;
    hide TrailerField;
    hide Writer.FieldText;
    hide StoredValue;
    hide GoodTrailer;
    if fields == [] {
      assert Writer.FieldTexts(fields) + CRLF + rest == CRLF + rest;
      EmptyLine(rest, end);
      TrailerStep(CRLF, rest, end, got, rule);
    } else {
      var f, more := fields[0], fields[1..];
      assert fields == [f] + more;
      FieldTextsCons(f, more);
      hide Writer.FieldTexts;
      var text := Writer.FieldText(f);
      var tail := Writer.FieldTexts(more) + CRLF + rest;
      assert Writer.FieldTexts(fields) + CRLF + rest == text + tail;
      FieldLineText(f, tail, end, rule);
      var now := got + TrailerField(text, rule);
      TrailersBack(more, now, rest, end, rule);
      TrailerStep(text, tail, end, got, rule);
      AppendAssoc(got, TrailerField(text, rule), Kept(more, rule));
    }
  }

  /** A trailer line of more than 8192 octets is refused. */
  lemma LongTrailerRefused(line: string, rest: string, end: End, rule: TrailerRule)
    requires '\r' !in line && '\0' !in line && line != "" && 8192 < |line| + 2 <= MAX_LINE_LENGTH
    ensures AfterLastChunk(line + CRLF + rest, end, rule) == Body(Error, "", [])
  {
    hide LineFrom;
    LineIs("", line, rest, end);
    assert "" + line + CRLF == line + CRLF;
    CStrClean(line + CRLF);
    assert (line + CRLF)[0] != '\r';
    TrailerStep(line + CRLF, rest, end, [], rule);
  }

  lemma {:induction false} TrailersCounted(fields: seq<Field>, got: seq<Field>, rest: string, end: End, rule: TrailerRule)
    requires GoodTrailers(fields) && |got| <= 100 < |got| + |fields|
    requires forall i :: 0 <= i < |fields| ==> rule.declared(fields[i].key)
    ensures var l := LineFrom("", Writer.FieldTexts(fields) + CRLF + rest, end);
            l.ok && TrailerSection(l.text, l.rest, end, got, rule) == Body(Error, "", got + Kept(fields[..100 - |got|], rule))
    decreases |fields|
  {
    hide LineFrom;
    hide TrailerSection;
    hide CStr;
    hide TrailerField;
    hide Writer.FieldText;
    hide StoredValue;
    hide GoodTrailer;
    var f, more := fields[0], fields[1..];
    assert fields == [f] + more;
    FieldTextsCons(f, more);
    hide Writer.FieldTexts;
    var text := Writer.FieldText(f);
    var tail := Writer.FieldTexts(more) + CRLF + rest;
    assert Writer.FieldTexts(fields) + CRLF + rest == text + tail;
    FieldLineText(f, tail, end, rule);
    TrailerStep(text, tail, end, got, rule);
    if |got| < 100 {
      var now := got + TrailerField(text, rule);
      assert |TrailerField(text, rule)| == 1;
      TrailersCounted(more, now, rest, end, rule);
      var k := 100 - |got|;
      assert fields[..k] == [f] + more[..k - 1];
      AppendAssoc(got, TrailerField(text, rule), Kept(more[..k - 1], rule));
    } else {
      assert fields[..0] == [] && got + [] == got;
    }
  }

  /** More than a hundred announced trailer fields are refused. */
  lemma TooManyTrailersRefused(fields: seq<Field>, rest: string, end: End, rule: TrailerRule)
    requires GoodTrailers(fields) && |fields| > 100 && forall i :: 0 <= i < |fields| ==> rule.declared(fields[i].key)
    ensures AfterLastChunk(Writer.FieldTexts(fields) + CRLF + rest, end, rule).result == Error
  {
    hide LineFrom;
    hide TrailerSection;
    TrailersCounted(fields, [], rest, end, rule);
  }

  // ---------- What the reader makes of it ----------

  /** The writes that fit into the room left, up to the first that does not. */
  function Fitting(writes: seq<string>, room: nat): string {
    if writes == [] || |writes[0]| > room then "" else writes[0] + Fitting(writes[1..], room - |writes[0]|)
  }

  lemma {:induction false} FittingAll(writes: seq<string>, room: nat)
    ensures Fitting(writes, room) <= Join(writes)
    ensures |Join(writes)| <= room ==> Fitting(writes, room) == Join(writes)
    ensures |Fitting(writes, room)| <= room
  {
    if writes != [] && |writes[0]| <= room {
      FittingAll(writes[1..], room - |writes[0]|);
    }
  }

  function Expected(writes: seq<string>, trailer: seq<Field>, room: nat, rule: TrailerRule): Body {
    if |Join(writes)| <= room then Body(Success, Fitting(writes, room), Kept(trailer, rule))
    else Body(PayloadTooLarge, Fitting(writes, room), [])
  }

  lemma LastChunkBack(trailer: seq<Field>, rest: string, end: End, total: nat, limit: nat, rule: TrailerRule)
    requires GoodTrailers(trailer) && |trailer| <= TRAILER_MAX_COUNT && total <= limit
    ensures var l := LineFrom("", Writer.DoneText(trailer) + rest, end);
            l.ok && FromSizeLine(l.text, l.rest, end, total, limit, rule) == Body(Success, "", Kept(trailer, rule))
  {
    hide LineFrom;
    hide FromSizeLine;
    hide TrailerSection;
    hide Strtoul16;
    hide CStr;
    hide Kept;
    hide Writer.FieldTexts;
    var tail := Writer.FieldTexts(trailer) + CRLF + rest;
    assert HexText(0) == "0" && Writer.DONE_MARKER == HexText(0) + CRLF;
    assert Writer.DoneText(trailer) + rest == HexText(0) + CRLF + tail;
    SizeLine(0, tail, end);
    SizeLineStep(HexText(0) + CRLF, tail, end, total, limit, rule);
    TrailersBack(trailer, [], rest, end, rule);
    assert [] + Kept(trailer, rule) == Kept(trailer, rule);
  }

  lemma {:induction false} ChunksBack(writes: seq<string>, trailer: seq<Field>, rest: string, end: End, total: nat, limit: nat, rule: TrailerRule)
    requires NonEmpty(writes) && GoodTrailers(trailer) && |trailer| <= TRAILER_MAX_COUNT && total <= limit
    ensures var l := LineFrom("", ChunkTexts(writes) + (Writer.DoneText(trailer) + rest), end);
            l.ok && FromSizeLine(l.text, l.rest, end, total, limit, rule) == Expected(writes, trailer, limit - total, rule)
    decreases |writes|
  {
    hide LineFrom;
    hide FromSizeLine;
    hide TrailerSection;
    hide Strtoul16;
    hide CStr;
    hide Kept;
    hide GoodTrailers;
    hide HexText;
    var after := Writer.DoneText(trailer) + rest;
    hide Writer.DoneText;
    if writes == [] {
      assert ChunkTexts(writes) + after == after;
      LastChunkBack(trailer, rest, end, total, limit, rule);
    } else {
      var w, more := writes[0], writes[1..];
      var tail := ChunkTexts(more) + after;
      var view := w + (CRLF + tail);
      var size := HexText(|w|) + CRLF;
      assert ChunkTexts(writes) + after == size + view;
      SizeLine(|w|, view, end);
      SizeLineStep(size, view, end, total, limit, rule);
      assert view[..|w|] == w && view[|w|..] == CRLF + tail;
      EmptyLine(tail, end);
      if |w| <= limit - total {
        ChunksBack(more, trailer, rest, end, total + |w|, limit, rule);
      }
    }
  }

  /** The round trip on texts: the body ends where the coding ends, whatever follows it. */
  lemma RoundTrip(calls: seq<Writer.Call>, writes: seq<string>, trailer: seq<Field>, rest: string, end: End, limit: nat, rule: TrailerRule)
    requires NonEmpty(writes) && GoodTrailers(trailer) && |trailer| <= TRAILER_MAX_COUNT
    requires AllActions(calls) == Writes(writes) + [Writer.Done(trailer)]
    ensures Writer.TextOf(calls).ended
    ensures var body := Dechunked(Writer.TextOf(calls).text + rest, end, limit, rule);
            && (body.result == Success <==> |Join(writes)| <= limit)
            && (body.result == Success ==> body.payload == Join(writes) && body.trailers == Kept(trailer, rule))
            && (body.result != Success ==> body == Body(PayloadTooLarge, Fitting(writes, limit), []))
  {
    hide LineFrom;
    hide FromSizeLine;
    hide Kept;
    hide ChunkTexts;
    hide Writer.DoneText;
    hide Writer.TextOf;
    hide Fitting;
    SpreadText(calls, writes, trailer);
    AppendAssoc(ChunkTexts(writes), Writer.DoneText(trailer), rest);
    ChunksBack(writes, trailer, rest, end, 0, limit, rule);
    FittingAll(writes, limit);
  }

  // ---------- An empty write ----------

  /** The provider has made these writes, over any calls, and a further call ends with an empty one. */
  lemma {:induction false} EmptyWriteEnds(calls: seq<Writer.Call>, writes: seq<string>, ret: bool, later: seq<Writer.Call>)
    requires NonEmpty(writes) && AllActions(calls) == Writes(writes)
    ensures Writer.TextOf(calls + ([Writer.Call([Writer.Write("")], ret)] + later)) == Writer.Produced(ChunkTexts(writes), true)
    decreases |calls|
  {
    hide Writer.ActionsText;
    hide Writer.Continues;
    hide ChunkTexts;
    var empty := Writer.Call([Writer.Write("")], ret);
    var all := calls + ([empty] + later);
    if calls == [] {
      assert all == [empty] + later && all[0] == empty;
      Writer.ActionsNone();
      Writer.ActionsSnoc([], Writer.Write(""));
      assert [] + [Writer.Write("")] == [Writer.Write("")];
      assert writes == [] by { assert |Writes(writes)| == |writes|; }
      assert ChunkTexts([]) == "" by { NoChunks(); }
    } else {
      var first := calls[0].actions;
      var k := |first|;
      assert first == AllActions(calls)[..k] && AllActions(calls[1..]) == AllActions(calls)[k..];
      assert first == Writes(writes[..k]) && AllActions(calls[1..]) == Writes(writes[k..]);
      WritesText(writes[..k]);
      EmptyWriteEnds(calls[1..], writes[k..], ret, later);
      assert all[0] == calls[0] && all[1..] == calls[1..] + ([empty] + later);
      assert writes == writes[..k] + writes[k..];
      ChunkTextsConcat(writes[..k], writes[k..]);
    }
  }

  lemma NoChunks()
    ensures ChunkTexts([]) == ""
  {
  }

  /** Chunks without an end are never read successfully. */
  lemma {:induction false} EndlessChunks(writes: seq<string>, end: End, total: nat, limit: nat, rule: TrailerRule)
    requires NonEmpty(writes)
    ensures var l := LineFrom("", ChunkTexts(writes), end);
            l.ok ==> FromSizeLine(l.text, l.rest, end, total, limit, rule).result != Success
    decreases |writes|
  {
    hide LineFrom;
    hide FromSizeLine;
    hide Strtoul16;
    hide CStr;
    hide HexText;
    if writes == [] {
      LineStep("", "", end);
    } else {
      var w, tail := writes[0], ChunkTexts(writes[1..]);
      var view := w + (CRLF + tail);
      var size := HexText(|w|) + CRLF;
      assert ChunkTexts(writes) == size + view;
      SizeLine(|w|, view, end);
      SizeLineStep(size, view, end, total, limit, rule);
      assert view[..|w|] == w && view[|w|..] == CRLF + tail;
      EmptyLine(tail, end);
      EndlessChunks(writes[1..], end, total + |w|, limit, rule);
    }
  }

  /** A provider that writes nothing without saying that it is done ends the body without its end marker: the writer
      succeeds, and no reader accepts what it has written. */
  lemma EmptyWriteTruncates(calls: seq<Writer.Call>, writes: seq<string>, later: seq<Writer.Call>, end: End, limit: nat, rule: TrailerRule)
    requires NonEmpty(writes) && AllActions(calls) == Writes(writes)
    ensures var produced := Writer.TextOf(calls + ([Writer.Call([Writer.Write("")], true)] + later));
            produced.ended && Dechunked(produced.text, end, limit, rule).result != Success
  {
    hide LineFrom;
    hide FromSizeLine;
    hide Writer.TextOf;
    EmptyWriteEnds(calls, writes, true, later);
    EndlessChunks(writes, end, 0, limit, rule);
  }

  /** The same over streams: `sends` says how much each send takes, and `arrivals` says how the octets on the wire reach the reader. */
  method Exchange(calls: seq<Writer.Call>, ghost writes: seq<string>, ghost trailer: seq<Field>, sends: seq<int>,
                  arrivals: string -> seq<NetEvent>, limit: u64, rule: TrailerRule)
    returns (sent: bool, result: ReadResult, got: string, trailers: seq<Field>)
    requires NonEmpty(writes) && GoodTrailers(trailer) && |trailer| <= TRAILER_MAX_COUNT
    requires AllActions(calls) == Writes(writes) + [Writer.Done(trailer)] && Writer.Sizes(calls)
    requires forall s :: Wire(arrivals(s)) == s
    ensures Writer.NoneFails(sends) && (forall i :: 0 <= i < |calls| ==> calls[i].ret) ==> sent
    ensures sent ==> (result == Success <==> |Join(writes)| <= limit as nat)
    ensures sent && result == Success ==> got == Join(writes) && trailers == Kept(trailer, rule)
    ensures sent && result != Success ==> result == PayloadTooLarge && got == Fitting(writes, limit as nat)
  {
    hide Wire;
    hide Ending;
    hide Dechunked;
    hide Writer.TextOf;
    hide Kept;
    hide Fitting;
    ghost var text := Writer.TextOf(calls).text;
    SpreadText(calls, writes, trailer);
    var out := new Writer.OutStream(sends);
    var error;
    ghost var interrupted;
    sent, error, interrupted := Writer.WriteContentChunked(out, calls, []);
    if !sent { return false, Error, "", []; }
    var socket := new Socket(arrivals(out.wire));
    var strm := new SocketStream(socket);
    var sink := new Sink([]);
    assert out.wire == text && text + "" == text && sink.got == "";
    RoundTrip(calls, writes, trailer, "", strm.Ends(), limit as nat, rule);
    result, trailers := ReadContentChunked(strm, limit, sink, rule);
    got := sink.got;
  }
}
