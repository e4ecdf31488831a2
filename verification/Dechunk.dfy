/** What a chunked body means: `read_content_chunked` as a function of the octets to come. */
module Dechunk {
  import opened Text
  import opened FieldLine
  import opened Numbers
  import opened Streams
  import opened LineReader

  const TRAILER_MAX_LENGTH: nat := 8192
  const TRAILER_MAX_COUNT: nat := 100

  datatype ReadResult = Success | PayloadTooLarge | Error

  /** The part of a buffer that a C string function sees. */
  function CStr(s: string): string { s[..IndexOf(s, '\0')] }

  lemma CStrMeans(seen: string, hidden: string)
    requires '\0' !in seen
    ensures CStr(seen) == seen && CStr(seen + ['\0'] + hidden) == seen
  {
    var s := seen + ['\0'] + hidden;
    assert forall i :: 0 <= i < |seen| ==> s[i] == seen[i];
    IndexOfIs(s, '\0', |seen|);
    IndexOfIs(seen, '\0', |seen|);
    assert s[..|seen|] == seen && seen[..|seen|] == seen;
  }

  /** How trailer fields are decoded, and which of them the header announced. */
  datatype TrailerRule = TrailerRule(decode: string -> string, declared: string -> bool)

  datatype Body = Body(result: ReadResult, payload: string, trailers: seq<Field>)

  function TrailerField(text: string, rule: TrailerRule): seq<Field> {
    var f := ParseField(if |text| < 2 then "" else text[..|text| - 2], rule.decode);
    if f.Some? && rule.declared(f.value.key) then [f.value] else []
  }

  /** The trailer section, with its line `text` already read. */
  function TrailerSection(text: string, view: string, end: End, got: seq<Field>, rule: TrailerRule): Body
    decreases |view|
  {
    if CStr(text) == CRLF then Body(Success, "", got)
    else if |text| > TRAILER_MAX_LENGTH || |got| >= TRAILER_MAX_COUNT then Body(Error, "", got)
    else
      var more := got + TrailerField(text, rule);
      var l := LineFrom("", view, end);
      if l.ok then TrailerSection(l.text, l.rest, end, more, rule) else Body(Error, "", more)
  }

  /** Behind the last chunk: a missing final line is tolerated. */
  function AfterLastChunk(view: string, end: End, rule: TrailerRule): Body {
    var l := LineFrom("", view, end);
    if l.ok then TrailerSection(l.text, l.rest, end, [], rule) else Body(Success, "", [])
  }

  /** From the size line `text` on, with `total` octets already handed over. */
  function FromSizeLine(text: string, view: string, end: End, total: nat, limit: nat, rule: TrailerRule): Body
    decreases |view|
  {
    var size := Strtoul16(CStr(text));
    if size.used == 0 || size.value == U64_MAX then Body(Error, "", [])
    else if size.value == 0 then AfterLastChunk(view, end, rule)
    else if total > limit || limit - total < size.value then Body(PayloadTooLarge, "", [])
    else if |view| < size.value then Body(Error, view, [])
    else
      var data := view[..size.value];
      var l := LineFrom("", view[size.value..], end);
      if !l.ok || CStr(l.text) != CRLF then Body(Error, data, [])
      else
        var next := LineFrom("", l.rest, end);
        if !next.ok then Body(Error, data, [])
        else
          var more := FromSizeLine(next.text, next.rest, end, total + size.value, limit, rule);
          more.(payload := data + more.payload)
  }

  function Dechunked(view: string, end: End, limit: nat, rule: TrailerRule): Body {
    var l := LineFrom("", view, end);
    if l.ok then FromSizeLine(l.text, l.rest, end, 0, limit, rule) else Body(Error, "", [])
  }

  /** No input makes a chunked body exceed the limit. */
  lemma {:induction false} FromSizeLineCapped(text: string, view: string, end: End, total: nat, limit: nat, rule: TrailerRule)
    requires total <= limit
    ensures total + |FromSizeLine(text, view, end, total, limit, rule).payload| <= limit
    decreases |view|
  {
    hide LineFrom;
    hide Strtoul16;
    hide TrailerSection;
    TrailerPayload(view, end, rule);
    var size := Strtoul16(CStr(text)).value;
    if 0 < size <= limit - total && size <= |view| {
      var l := LineFrom("", view[size..], end);
      if l.ok {
        var next := LineFrom("", l.rest, end);
        if next.ok { FromSizeLineCapped(next.text, next.rest, end, total + size, limit, rule); }
      }
    }
  }

  lemma TrailerPayload(view: string, end: End, rule: TrailerRule)
    ensures AfterLastChunk(view, end, rule).payload == ""
  {
    hide LineFrom;
    var l := LineFrom("", view, end);
    if l.ok { TrailerSectionPayload(l.text, l.rest, end, [], rule); }
  }

  lemma {:induction false} TrailerSectionPayload(text: string, view: string, end: End, got: seq<Field>, rule: TrailerRule)
    ensures TrailerSection(text, view, end, got, rule).payload == ""
    decreases |view|
  {
    hide LineFrom;
    hide TrailerField;
    var l := LineFrom("", view, end);
    if l.ok { TrailerSectionPayload(l.text, l.rest, end, got + TrailerField(text, rule), rule); }
  }

  lemma DechunkedCapped(view: string, end: End, limit: nat, rule: TrailerRule)
    ensures |Dechunked(view, end, limit, rule).payload| <= limit
  {
    hide LineFrom;
    hide FromSizeLine;
    var l := LineFrom("", view, end);
    if l.ok { FromSizeLineCapped(l.text, l.rest, end, 0, limit, rule); }
  }
}
