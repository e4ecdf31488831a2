/** `read_content` in its three framings, over the buffered stream. */
module ContentReader {
  import opened Text
  import opened FieldLine
  import opened Numbers
  import opened Streams
  import opened LineReader
  import opened Dechunk

  const RECV_BUFSIZ: nat := 16384

  /** The content receiver: it keeps what it is given and may refuse at any call. */
  class Sink {
    var got: string
    var verdicts: seq<bool>
    ghost var refused: bool

    constructor (verdicts: seq<bool>)
      ensures got == "" && this.verdicts == verdicts && !refused
    {
      got := "";
      this.verdicts := verdicts;
      refused := false;
    }

    method Receive(data: string) returns (ok: bool)
      modifies this
      ensures got == old(got) + data
      ensures refused == (old(refused) || !ok)
      ensures old(verdicts) == [] ==> ok && verdicts == []
    {
      got := got + data;
      ok := verdicts == [] || verdicts[0];
      if verdicts != [] { verdicts := verdicts[1..]; }
      refused := refused || !ok;
    }
  }

  /** `data` has gone from the front of the octets to come into the sink. */
  ghost predicate Moved(before: string, after: string, got: string, now: string, data: string) {
    before == data + after && now == got + data
  }

  lemma MovedTwice(before: string, mid: string, after: string, got: string, now: string, later: string, a: string, b: string)
    requires Moved(before, mid, got, now, a) && Moved(mid, after, now, later, b)
    ensures Moved(before, after, got, later, a + b)
  {
  }

  method ReadContentWithLength(strm: SocketStream, len: u64, sink: Sink) returns (ok: bool, ghost data: string)
    requires strm.Valid() && !sink.refused
    modifies strm`off, strm`contentSize, strm`delivered, strm.sock, strm.buff, sink
    ensures strm.Valid() && strm.UpToFault(old(strm.Ends()), old(strm.Later()))
    ensures sink.got == old(sink.got) + data && data <= old(strm.View()) && |data| <= len as nat
    ensures ok || sink.refused ==>
              Moved(old(strm.View()), strm.View(), old(sink.got), sink.got, data) && strm.Ends() == old(strm.Ends()) && strm.Later() == old(strm.Later())
    ensures ok ==> |data| == len as nat && !sink.refused
    ensures !ok && !sink.refused ==>
              && data == old(strm.View()) && |data| < len as nat
              && if old(strm.Ends()) == Orderly then strm.View() == "" else strm.Past(old(strm.Later()))
    ensures old(sink.verdicts) == [] ==> sink.verdicts == [] && !sink.refused
  {
    hide Wire;
    hide Ending;
    hide Behind;
    var r: u64 := 0;
    data := "";
    ghost var view := strm.View();
    while r < len
      invariant strm.Valid() && !sink.refused && strm.Ends() == old(strm.Ends()) && strm.Later() == old(strm.Later())
      invariant 0 <= r <= len && |data| == r as nat
      invariant Moved(view, strm.View(), old(sink.got), sink.got, data)
      invariant old(sink.verdicts) == [] ==> sink.verdicts == []
    {
      ghost var mid, got := strm.View(), sink.got;
      var readLen := len - r;
      var n, bytes := strm.Read(if readLen as nat <= RECV_BUFSIZ then readLen as nat else RECV_BUFSIZ);
      if n <= 0 {
        assert data + "" == data;
        return false, data;
      }
      var taken := sink.Receive(bytes);
      MovedTwice(view, mid, strm.View(), old(sink.got), got, sink.got, data, bytes);
      data := data + bytes;
      if !taken { return false, data; }
      r := r + n as u64;
    }
    return true, data;
  }

  /** The body runs to the end of the connection. */
  method ReadContentWithoutLength(strm: SocketStream, limit: u64, sink: Sink) returns (result: ReadResult, ghost data: string)
    requires strm.Valid() && !sink.refused
    modifies strm`off, strm`contentSize, strm`delivered, strm.sock, strm.buff, sink
    ensures strm.Valid() && strm.UpToFault(old(strm.Ends()), old(strm.Later()))
    ensures sink.got == old(sink.got) + data && data <= old(strm.View())
    ensures |data| <= limit as nat
    ensures result == Success ==> data == old(strm.View()) && old(strm.Ends()) == strm.Ends() == Orderly && !sink.refused
    ensures old(sink.verdicts) == [] ==> !sink.refused
    ensures result == PayloadTooLarge ==> |old(strm.View())| > limit as nat
    ensures result == Error ==> sink.refused || (data == old(strm.View()) && old(strm.Ends()) == Broken && strm.Past(old(strm.Later())))
  {
    hide Wire;
    hide Ending;
    hide Behind;
    var r: u64 := 0;
    data := "";
    ghost var view := strm.View();
    while true
      invariant strm.Valid() && !sink.refused && strm.Ends() == old(strm.Ends()) && strm.Later() == old(strm.Later())
      invariant r <= limit && |data| == r as nat
      invariant Moved(view, strm.View(), old(sink.got), sink.got, data)
      invariant old(sink.verdicts) == [] ==> sink.verdicts == []
      decreases |strm.View()|
    {
      ghost var mid, got := strm.View(), sink.got;
      var n, bytes := strm.Read(RECV_BUFSIZ);
      if n == 0 { return Success, data; }
      if n < 0 { return Error, data; }
      if r > limit || limit - r < n as u64 { return PayloadTooLarge, data; }
      var taken := sink.Receive(bytes);
      MovedTwice(view, mid, strm.View(), old(sink.got), got, sink.got, data, bytes);
      data := data + bytes;
      if !taken { return Error, data; }
      r := r + n as u64;
    }
  }

  method SkipContentWithLength(strm: SocketStream, len: u64)
    requires strm.Valid()
    modifies strm`off, strm`contentSize, strm`delivered, strm.sock, strm.buff
    ensures strm.Valid() && strm.UpToFault(old(strm.Ends()), old(strm.Later()))
    ensures if |old(strm.View())| < len as nat && old(strm.Ends()) == Broken then strm.Past(old(strm.Later()))
            else |strm.View()| == if |old(strm.View())| < len as nat then 0 else |old(strm.View())| - len as nat
  {
    hide Wire;
    hide Ending;
    hide Behind;
    var r: u64 := 0;
    ghost var view := strm.View();
    while r < len
      invariant strm.Valid() && strm.Ends() == old(strm.Ends()) && strm.Later() == old(strm.Later())
      invariant 0 <= r <= len && |view| == r as nat + |strm.View()|
    {
      var readLen := len - r;
      var n, _ := strm.Read(if readLen as nat <= RECV_BUFSIZ then readLen as nat else RECV_BUFSIZ);
      if n <= 0 { return; }
      r := r + n as u64;
    }
  }

  // ---------- Chunked ----------

  /** Everything a read may change besides the sink. */
  ghost predicate Reading(r: StreamLineReader)
    reads r, r.fixed, r.strm, r.strm.sock, r.strm.buff
  {
    r.Valid() && r.strm.Valid() && r.strm.buff != r.fixed
  }

  /** One turn of the chunk loop, after the check of the limit: the data, its CRLF and the next size line. */
  method ReadChunk(reader: StreamLineReader, len: u64, sink: Sink) returns (ok: bool, ghost data: string)
    requires Reading(reader) && !sink.refused && len > 0
    modifies reader`used, reader`growable, reader.fixed
    modifies reader.strm`off, reader.strm`contentSize, reader.strm`delivered, reader.strm.sock, reader.strm.buff, sink
    ensures Reading(reader) && reader.strm.UpToFault(old(reader.strm.Ends()), old(reader.strm.Later()))
    ensures ok ==> reader.strm.Ends() == old(reader.strm.Ends()) && reader.strm.Later() == old(reader.strm.Later())
    ensures sink.got == old(sink.got) + data
    ensures old(sink.verdicts) == [] ==> sink.verdicts == [] && !sink.refused
    ensures var view := old(reader.strm.View());
            var end := old(reader.strm.Ends());
            if |view| < len as nat then !ok && data <= view && (sink.refused || data == view)
            else
              && data <= view[..len as nat] && (sink.refused ==> !ok)
              && (!sink.refused ==>
                    && data == view[..len as nat]
                    && var l := LineFrom("", view[len as nat..], end);
                       var next := LineFrom("", l.rest, end);
                       && (ok <==> l.ok && CStr(l.text) == CRLF && next.ok)
                       && (ok ==> Line(true, reader.Content(), reader.strm.View()) == next))
  {
    hide Wire;
    hide Ending;
    hide Behind;
    hide LineFrom;
    ghost var view := reader.strm.View();
    ok, data := ReadContentWithLength(reader.strm, len, sink);
    assert data == view[..|data|];
    if !ok { return false, data; }
    assert reader.strm.View() == view[|data|..];
    ok := reader.GetLine();
    if !ok { return false, data; }
    if CStr(reader.Text()) != CRLF { return false, data; }
    ok := reader.GetLine();
  }

  method ReadTrailers(reader: StreamLineReader, rule: TrailerRule) returns (result: ReadResult, trailers: seq<Field>)
    requires Reading(reader)
    modifies reader`used, reader`growable, reader.fixed
    modifies reader.strm`off, reader.strm`contentSize, reader.strm`delivered, reader.strm.sock, reader.strm.buff
    ensures Reading(reader) && reader.strm.UpToFault(old(reader.strm.Ends()), old(reader.strm.Later()))
    ensures Body(result, "", trailers) == AfterLastChunk(old(reader.strm.View()), old(reader.strm.Ends()), rule)
  {
    hide Wire;
    hide Ending;
    hide Behind;
    hide LineFrom;
    hide TrailerSection;
    hide TrailerField;
    ghost var end, later := reader.strm.Ends(), reader.strm.Later();
    trailers := [];
    var ok := reader.GetLine();
    if !ok { return Success, []; }
    ghost var goal := TrailerSection(reader.Content(), reader.strm.View(), end, [], rule);
    while true
      invariant Reading(reader) && reader.strm.Ends() == end && reader.strm.Later() == later
      invariant TrailerSection(reader.Content(), reader.strm.View(), end, trailers, rule) == goal
      decreases |reader.strm.View()|
    {
      var text := reader.Text();
      TrailerStep(text, reader.strm.View(), end, trailers, rule);
      if CStr(text) == CRLF { return Success, trailers; }
      if |text| > TRAILER_MAX_LENGTH { return Error, trailers; }
      if |trailers| >= TRAILER_MAX_COUNT { return Error, trailers; }
      trailers := trailers + TrailerField(text, rule);
      ok := reader.GetLine();
      if !ok { return Error, trailers; }
    }
  }

  lemma TrailerStep(text: string, view: string, end: End, got: seq<Field>, rule: TrailerRule)
    ensures CStr(text) == CRLF ==> TrailerSection(text, view, end, got, rule) == Body(Success, "", got)
    ensures CStr(text) != CRLF && (|text| > TRAILER_MAX_LENGTH || |got| >= TRAILER_MAX_COUNT) ==>
              TrailerSection(text, view, end, got, rule) == Body(Error, "", got)
    ensures CStr(text) != CRLF && |text| <= TRAILER_MAX_LENGTH && |got| < TRAILER_MAX_COUNT ==>
              var more := got + TrailerField(text, rule);
              var l := LineFrom("", view, end);
              TrailerSection(text, view, end, got, rule) ==
              if l.ok then TrailerSection(l.text, l.rest, end, more, rule) else Body(Error, "", more)
    ensures LineFrom("", view, end).ok ==> |LineFrom("", view, end).rest| < |view|
  {
    hide CStr;
    hide TrailerField;
  }

  /** The meaning of the rest of the body does not depend on what has been handed over before. */
  lemma SizeLineStep(text: string, view: string, end: End, total: nat, limit: nat, rule: TrailerRule)
    ensures var size := Strtoul16(CStr(text));
            FromSizeLine(text, view, end, total, limit, rule) ==
            if size.used == 0 || size.value == U64_MAX then Body(Error, "", [])
            else if size.value == 0 then AfterLastChunk(view, end, rule)
            else if total > limit || limit - total < size.value then Body(PayloadTooLarge, "", [])
            else if |view| < size.value then Body(Error, view, [])
            else
              var data := view[..size.value];
              var l := LineFrom("", view[size.value..], end);
              if !l.ok || CStr(l.text) != CRLF then Body(Error, data, [])
              else
                var next := LineFrom("", l.rest, end);
                if !next.ok then Body(Error, data, [])
                else
                  var more := FromSizeLine(next.text, next.rest, end, total + size.value, limit, rule);
                  more.(payload := data + more.payload)
  {
    hide CStr;
    hide Strtoul16;
    hide LineFrom;
    hide AfterLastChunk;
  }

  /** What a turn of the chunk loop leads to. */
  datatype Turn = More | Last | Stop(result: ReadResult)

  /** `data` is what the turn hands over and `body` what the octets mean from its size line on. */
  ghost predicate TurnMeans(turn: Turn, data: string, refused: bool, body: Body, rest: Body, tail: Body) {
    match turn
    case More => !refused && body == rest.(payload := data + rest.payload)
    case Last => !refused && data == "" && body == tail
    case Stop(result) =>
      if refused then result == Error && data <= body.payload else body == Body(result, data, [])
  }

  method ChunkTurn(reader: StreamLineReader, total: u64, limit: u64, sink: Sink, ghost rule: TrailerRule)
    returns (turn: Turn, newTotal: u64, ghost data: string)
    requires Reading(reader) && !sink.refused && total <= limit
    modifies reader`used, reader`growable, reader.fixed
    modifies reader.strm`off, reader.strm`contentSize, reader.strm`delivered, reader.strm.sock, reader.strm.buff, sink
    ensures Reading(reader) && reader.strm.UpToFault(old(reader.strm.Ends()), old(reader.strm.Later()))
    ensures !turn.Stop? ==> reader.strm.Ends() == old(reader.strm.Ends()) && reader.strm.Later() == old(reader.strm.Later())
    ensures sink.got == old(sink.got) + data && newTotal <= limit
    ensures old(sink.verdicts) == [] ==> sink.verdicts == [] && !sink.refused
    ensures turn == More ==> |reader.strm.View()| < |old(reader.strm.View())|
    ensures var end := old(reader.strm.Ends());
            TurnMeans(turn, data, sink.refused,
                      FromSizeLine(old(reader.Content()), old(reader.strm.View()), end, total as nat, limit as nat, rule),
                      FromSizeLine(reader.Content(), reader.strm.View(), end, newTotal as nat, limit as nat, rule),
                      AfterLastChunk(reader.strm.View(), end, rule))
  {
    hide Wire;
    hide Ending;
    hide Behind;
    hide LineFrom;
    hide FromSizeLine;
    hide AfterLastChunk;
    hide Strtoul16;
    hide CStr;
    var text := reader.Text();
    ghost var view := reader.strm.View();
    ghost var end := reader.strm.Ends();
    SizeLineStep(text, view, end, total as nat, limit as nat, rule);
    assert sink.got + "" == sink.got;
    var size := Strtoul16(CStr(text));
    newTotal := total;
    data := "";
    if size.used == 0 || size.value == U64_MAX { return Stop(Error), total, ""; }
    var chunkLen := size.value as u64;
    if chunkLen == 0 { return Last, total, ""; }
    if total > limit || limit - total < chunkLen { return Stop(PayloadTooLarge), total, ""; }
    newTotal := total + chunkLen;
    var ok;
    ok, data := ReadChunk(reader, chunkLen, sink);
    if |view| >= chunkLen as nat { LinesShrink(view, chunkLen as nat, end); }
    turn := if ok then More else Stop(Error);
  }

  /** `read_content_chunked`: with an accepting receiver, exactly what the octets mean; otherwise a part of it. */
  method ReadContentChunked(strm: SocketStream, limit: u64, sink: Sink, rule: TrailerRule)
    returns (result: ReadResult, trailers: seq<Field>)
    requires strm.Valid() && !sink.refused
    modifies strm`off, strm`contentSize, strm`delivered, strm.sock, strm.buff, sink
    ensures strm.Valid() && strm.UpToFault(old(strm.Ends()), old(strm.Later()))
    ensures var body := Dechunked(old(strm.View()), old(strm.Ends()), limit as nat, rule);
            if sink.refused then
              result == Error && old(sink.got) <= sink.got <= old(sink.got) + body.payload
            else
              result == body.result && sink.got == old(sink.got) + body.payload && trailers == body.trailers
    ensures |sink.got| <= |old(sink.got)| + limit as nat
    ensures old(sink.verdicts) == [] ==> !sink.refused
  {
    hide Wire;
    hide Ending;
    hide Behind;
    hide LineFrom;
    hide FromSizeLine;
    hide AfterLastChunk;
    ghost var end, later := strm.Ends(), strm.Later();
    ghost var before := sink.got;
    ghost var goal := Dechunked(strm.View(), end, limit as nat, rule);
    DechunkedCapped(strm.View(), end, limit as nat, rule);
    var reader := new StreamLineReader(strm, 16);
    var ok := reader.GetLine();
    if !ok { return Error, []; }
    var total: u64 := 0;
    ghost var payload := "";
    while true
      invariant Reading(reader) && reader.strm == strm && strm.Ends() == end && strm.Later() == later && fresh(reader) && fresh(reader.fixed)
      invariant !sink.refused && sink.got == before + payload && total <= limit
      invariant old(sink.verdicts) == [] ==> sink.verdicts == []
      invariant Extends(goal, payload,
                        FromSizeLine(reader.Content(), strm.View(), end, total as nat, limit as nat, rule))
      decreases |strm.View()|
    {
      ghost var b := FromSizeLine(reader.Content(), strm.View(), end, total as nat, limit as nat, rule);
      var turn;
      ghost var data;
      turn, total, data := ChunkTurn(reader, total, limit, sink, rule);
      AppendAssoc(before, payload, data);
      PayloadGrows(goal, payload, data, b);
      payload := payload + data;
      match turn
      case More =>
      case Last => break;
      case Stop(r) => return r, [];
    }
    TrailerPayload(strm.View(), end, rule);
    result, trailers := ReadTrailers(reader, rule);
  }

  ghost predicate Extends(goal: Body, payload: string, b: Body) {
    goal == b.(payload := payload + b.payload)
  }

  lemma PayloadGrows(goal: Body, payload: string, data: string, b: Body)
    requires Extends(goal, payload, b)
    ensures forall rest: Body :: b == rest.(payload := data + rest.payload) ==> Extends(goal, payload + data, rest)
    ensures data <= b.payload ==> payload + data <= goal.payload
    ensures b.payload == data ==> goal.payload == payload + data
    ensures data == "" ==> Extends(goal, payload + data, b)
  {
    if data == "" { assert payload + data == payload; }
    forall rest: Body | b == rest.(payload := data + rest.payload) ensures Extends(goal, payload + data, rest) {
      AppendAssoc(payload, data, rest.payload);
    }
  }

  lemma LinesShrink(view: string, len: nat, end: End)
    requires 0 < len <= |view|
    ensures var l := LineFrom("", view[len..], end);
            var next := LineFrom("", l.rest, end);
            l.ok && next.ok ==> |next.rest| < |view|
  {
  }

  // ---------- The three framings ----------

  datatype Framing = Chunked | Unsized | Sized(len: u64) | BadLength

  /** `Transfer-Encoding` decides first, then the presence of `Content-Length`; only digits make a length, and one that
      64 bits cannot hold saturates as in `strtoull`. */
  function FramingOf(transferEncoding: string, contentLength: Option<string>): (f: Framing)
    ensures f.Chunked? <==> Recased(transferEncoding, "chunked")
    ensures !f.Chunked? ==> (f.Unsized? <==> contentLength.None?)
    ensures f.BadLength? ==> contentLength.Some? && (contentLength.value == "" || exists i :: 0 <= i < |contentLength.value| && !IsDigit(contentLength.value[i]))
    ensures f.Sized? ==> contentLength.Some? && contentLength.value != "" && AllDigits(contentLength.value)
    ensures f.Sized? ==> f.len as nat <= DecValue(contentLength.value)
    ensures f.Sized? && f.len as nat < DecValue(contentLength.value) ==> f.len as nat == U64_MAX
  {
    EqualIgnoringCaseIff(transferEncoding, "chunked");
    if EqualIgnoringCase(transferEncoding, "chunked") then Chunked
    else
      match contentLength
      case None => Unsized
      case Some(text) =>
        if text == "" || !AllDigits(text) then BadLength
        else Sized(if DecValue(text) > U64_MAX then U64_MAX as u64 else DecValue(text) as u64)
  }

  lemma FramingRecased(a: string, b: string, contentLength: Option<string>)
    requires Recased(a, b)
    ensures FramingOf(a, contentLength) == FramingOf(b, contentLength)
  {
    RecasedTwice(a, b, "chunked");
    EqualIgnoringCaseIff(a, "chunked");
    EqualIgnoringCaseIff(b, "chunked");
    hide Recased;
    hide EqualIgnoringCase;
  }

  /** What a body means under its framing, for a receiver that accepts everything. */
  ghost function Meaning(framing: Framing, view: string, end: End, limit: nat, rule: TrailerRule): Body {
    match framing
    case Chunked => Dechunked(view, end, limit, rule)
    case Unsized =>
      if |view| > limit then Body(PayloadTooLarge, "", [])
      else Body(if end == Orderly then Success else Error, view, [])
    case Sized(len) =>
      if len as nat > limit then Body(PayloadTooLarge, "", [])
      else if |view| < len as nat then Body(Error, view, [])
      else Body(Success, view[..len as nat], [])
    case BadLength => Body(Error, "", [])
  }

  /** The limit is exact: a body of just that length is read whole, and one octet more is refused, whether its length is
      announced or the body ends with the connection. */
  lemma LimitExact(view: string, end: End, limit: nat, rule: TrailerRule)
    requires limit < U64_MAX
    ensures |view| >= limit ==> Meaning(Sized(limit as u64), view, end, limit, rule) == Body(Success, view[..limit], [])
    ensures |view| < limit ==> Meaning(Sized(limit as u64), view, end, limit, rule).result == Error
    ensures Meaning(Sized((limit + 1) as u64), view, end, limit, rule) == Body(PayloadTooLarge, "", [])
    ensures |view| <= limit ==>
              Meaning(Unsized, view, end, limit, rule) == Body(if end == Orderly then Success else Error, view, [])
    ensures |view| > limit ==> Meaning(Unsized, view, end, limit, rule).result == PayloadTooLarge
    ensures Meaning(BadLength, view, end, limit, rule).result == Error
  {
  }

  /** `read_content`: never more than the limit reaches the receiver, and the status says why a read failed. */
  method ReadContent(strm: SocketStream, framing: Framing, limit: u64, sink: Sink, rule: TrailerRule, status0: nat)
    returns (ok: bool, status: nat, trailers: seq<Field>)
    requires strm.Valid() && !sink.refused
    modifies strm`off, strm`contentSize, strm`delivered, strm.sock, strm.buff, sink
    ensures strm.Valid() && strm.UpToFault(old(strm.Ends()), old(strm.Later()))
    ensures |sink.got| <= |old(sink.got)| + limit as nat
    ensures old(sink.got) <= sink.got
    ensures status == if ok then status0 else if status == 413 then 413 else 400
    ensures var body := Meaning(framing, old(strm.View()), old(strm.Ends()), limit as nat, rule);
            !sink.refused ==>
              && (ok <==> body.result == Success)
              && (!ok ==> (status == 413 <==> body.result == PayloadTooLarge))
              && (body.result != PayloadTooLarge ==> sink.got == old(sink.got) + body.payload)
    ensures sink.refused ==> !ok
    ensures old(sink.verdicts) == [] ==> !sink.refused
  {
    hide Wire;
    hide Ending;
    hide Behind;
    hide Dechunked;
    trailers := [];
    ghost var view := strm.View();
    ghost var data;
    var result := Success;
    match framing {
      case Chunked =>
        result, trailers := ReadContentChunked(strm, limit, sink, rule);
      case Unsized =>
        result, data := ReadContentWithoutLength(strm, limit, sink);
        assert data == view[..|data|];
      case BadLength =>
        assert sink.got + "" == sink.got;
        result := Error;
      case Sized(len) =>
        if len > limit {
          SkipContentWithLength(strm, len);
          result := PayloadTooLarge;
        } else if len > 0 {
          var all;
          all, data := ReadContentWithLength(strm, len, sink);
          assert data == view[..|data|];
          result := if all then Success else Error;
        } else {
          assert view[..0] == "" && sink.got + "" == sink.got;
        }
    }
    ok := result == Success;
    status := if ok then status0 else if result == PayloadTooLarge then 413 else 400;
  }
}
