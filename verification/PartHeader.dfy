/** What one header line does to the part under construction in `FormDataParser::parse`. */
module PartHeader {
  import opened Text
  import opened FieldLine

  datatype FormData = FormData(name: string, filename: string, contentType: string, headers: seq<Field>)

  const NO_FILE := FormData("", "", "", [])

  const CONTENT_TYPE: string := "Content-Type:"
  const CONTENT_DISPOSITION: string := "Content-Disposition:"
  const FORM_DATA: string := "form-data;"
  const UTF8_QUOTES: string := "UTF-8''"

  function TrimQuotes(s: string): string {
    if |s| >= 2 && s[0] == '"' && s[|s| - 1] == '"' then s[1..|s| - 1] else s
  }

  datatype Param = Param(key: string, val: string)

  /** The key is the first piece around `=`, the value the last one. */
  function ParamOf(kv: string): Option<Param> {
    var pieces := Split(kv, '=');
    if pieces == [] then None
    else Some(Param(TrimQuotes(pieces[0]), TrimQuotes(if |pieces| == 1 then "" else pieces[|pieces| - 1])))
  }

  function ParamsOf(pieces: seq<string>, seen: set<string>): seq<Param> {
    if pieces == [] then []
    else if pieces[0] in seen then ParamsOf(pieces[1..], seen)
    else
      var p := ParamOf(pieces[0]);
      (if p.Some? then [p.value] else []) + ParamsOf(pieces[1..], seen + {pieces[0]})
  }

  /** `parse_disposition_params`: parameters in order of insertion. */
  function DispositionParams(s: string): seq<Param> {
    ParamsOf(Split(s, ';'), {})
  }

  /** First parameter of that name. */
  function Lookup(params: seq<Param>, key: string): Option<string> {
    if params == [] then None
    else if params[0].key == key then Some(params[0].val)
    else Lookup(params[1..], key)
  }

  /** The text captured by the `Content-Disposition: form-data;` pattern. The line is a valid field line,
      so the only white space it can hold is spaces and tabs. */
  function MatchDisposition(line: string): Option<string> {
    if !StartsIgnoringCase(line, CONTENT_DISPOSITION) then None
    else
      var value := TrimLeft(line[|CONTENT_DISPOSITION|..]);
      if !StartsIgnoringCase(value, FORM_DATA) then None
      else Some(TrimLeft(value[|FORM_DATA|..]))
  }

  datatype LineEffect = LineEffect(ok: bool, file: FormData)

  function DispositionEffect(params: seq<Param>, file: FormData, decode: string -> string): LineEffect {
    var name := Lookup(params, "name");
    if name.None? then LineEffect(false, file)
    else
      var named := file.(name := name.value);
      var filename := Lookup(params, "filename");
      var filed := if filename.Some? then named.(filename := filename.value) else named;
      var extended := Lookup(params, "filename*");
      if extended.None? then LineEffect(true, filed)
      else if StartsIgnoringCase(extended.value, UTF8_QUOTES) && |extended.value| > |UTF8_QUOTES|
      then LineEffect(true, filed.(filename := decode(extended.value[|UTF8_QUOTES|..])))
      else LineEffect(false, filed)
  }

  /** The body of the header loop for one non-empty line. */
  function ApplyLine(line: string, file: FormData, decode: string -> string): LineEffect {
    var field := ParseField(line, decode);
    if field.None? then LineEffect(false, file)
    else
      var stored := file.(headers := file.headers + [field.value]);
      if StartsIgnoringCase(line, CONTENT_TYPE)
      then LineEffect(true, stored.(contentType := Trim(line[|CONTENT_TYPE|..])))
      else
        var m := MatchDisposition(line);
        if m.None? then LineEffect(true, stored)
        else DispositionEffect(DispositionParams(m.value), stored, decode)
  }

  /** Of several texts behind equals signs the last one is the value. */
  lemma LastValueCounts(key: string, middle: string, val: string)
    requires '=' !in key && '=' !in middle && '=' !in val
    requires Trimmed(key) && Trimmed(val) && key != "" && val != ""
    ensures ParamOf(key + ['='] + (middle + ['='] + val)) == Some(Param(TrimQuotes(key), TrimQuotes(val)))
  {
    hide TrimQuotes;
    SplitThree(key, middle, val);
    hide Split;
    var kv := key + ['='] + (middle + ['='] + val);
    var pieces := Split(kv, '=');
    assert pieces[0] == key && pieces[|pieces| - 1] == val && |pieces| > 1;
  }

  lemma SplitThree(key: string, middle: string, val: string)
    requires '=' !in key && '=' !in middle && '=' !in val
    requires Trimmed(key) && Trimmed(val) && key != "" && val != ""
    ensures Split(key + ['='] + (middle + ['='] + val), '=') == [key] + (Piece(middle) + [val])
  {
    SplitCons(key, '=', middle + ['='] + val);
    SplitCons(middle, '=', val);
    SplitLast(val, '=');
    TrimTrimmed(key);
    TrimTrimmed(val);
    hide Split;
    hide Trim;
  }

  // ---------- What a line means, in terms of its name and its text ----------

  lemma NameMatches(name: string, text: string, key: string)
    requires ':' !in name && ':' !in key
    ensures var line := name + ":" + text;
            && (StartsIgnoringCase(line, key + ":") <==> Recased(name, key))
            && (Recased(name, key) ==> line[|key| + 1..] == text)
  {
    var line, start := name + ":" + text, key + ":";
    StartsIgnoringCaseIff(line, start);
    if Recased(name, key) {
      assert line[..|start|] == name + ":" && line[|key| + 1..] == text;
      assert forall i :: 0 <= i < |start| ==> SameLetter((name + ":")[i], start[i]);
    }
    if |start| <= |line| && Recased(line[..|start|], start) {
      var front := line[..|start|];
      assert forall i :: 0 <= i < |start| ==> SameLetter(front[i], start[i]);
      assert SameLetter(line[|key|], ':') && line[|key|] == ':';
      assert forall j :: 0 <= j < |name| ==> line[j] == name[j] && line[j] != ':';
      assert forall j :: 0 <= j < |key| ==> SameLetter(line[j], key[j]) && line[j] != ':';
      assert line[|name|] == ':' && |name| == |key|;
      assert front[..|key|] == name;
      assert forall i :: 0 <= i < |key| ==> SameLetter(name[i], key[i]) by {
        assert forall i :: 0 <= i < |key| ==> front[i] == name[i] && start[i] == key[i];
      }
    }
  }

  /** The parameters that the text of a Content-Disposition field holds, if it is `form-data;` in any case. */
  function FormDataText(text: string): Option<string> {
    var value := TrimLeft(text);
    if |value| < 10 || !Recased(value[..10], "form-data;") then None else Some(TrimLeft(value[10..]))
  }

  /** What a line does to the part, whatever the case of its name: a malformed line fails, Content-Type gives the type
      without surrounding blanks, Content-Disposition the name and the file name, and other fields are only kept. */
  lemma ApplyLineMeans(name: string, text: string, file: FormData, decode: string -> string)
    requires ':' !in name
    ensures var effect := ApplyLine(name + ":" + text, file, decode);
            var val := TrimLeft(TrimRight(text));
            if !IsFieldName(name) || !IsFieldValue(val) then effect == LineEffect(false, file)
            else
              var stored := file.(headers := file.headers + [Field(name, StoredValue(name, val, decode))]);
              if Recased(name, "Content-Type") then effect == LineEffect(true, stored.(contentType := Trim(text)))
              else if Recased(name, "Content-Disposition") && FormDataText(text).Some?
              then effect == DispositionEffect(DispositionParams(FormDataText(text).value), stored, decode)
              else effect == LineEffect(true, stored)
  {
    hide IsFieldName;
    hide IsFieldValue;
    hide StoredValue;
    hide DispositionParams;
    hide DispositionEffect;
    ParseFieldMeans(name, text, decode);
    hide ParseField;
    assert CONTENT_TYPE == "Content-Type" + ":" && CONTENT_DISPOSITION == "Content-Disposition" + ":";
    NameMatches(name, text, "Content-Type");
    NameMatches(name, text, "Content-Disposition");
    var value := TrimLeft(text);
    StartsIgnoringCaseIff(value, FORM_DATA);
    hide StartsIgnoringCase;
    hide Recased;
    hide TrimLeft;
    hide TrimRight;
  }

  lemma DispositionAlike(params: seq<Param>, a: FormData, b: FormData, decode: string -> string)
    requires a.name == b.name && a.filename == b.filename && a.contentType == b.contentType
    ensures var e, f := DispositionEffect(params, a, decode), DispositionEffect(params, b, decode);
            && e.ok == f.ok && e.file.name == f.file.name && e.file.filename == f.file.filename
            && e.file.contentType == f.file.contentType
  {
    hide Lookup;
    hide StartsIgnoringCase;
  }

  /** The case of the name changes neither whether a line is accepted nor name, file name and type of the part. */
  lemma RecasedLine(name: string, other: string, text: string, file: FormData, decode: string -> string)
    requires Recased(name, other) && ':' !in name
    ensures var e, f := ApplyLine(name + ":" + text, file, decode), ApplyLine(other + ":" + text, file, decode);
            && e.ok == f.ok && e.file.name == f.file.name && e.file.filename == f.file.filename
            && e.file.contentType == f.file.contentType
  {
    RecasedField(name, other, text, decode);
    RecasedTwice(name, other, "Content-Type");
    RecasedTwice(name, other, "Content-Disposition");
    ParseFieldMeans(name, text, decode);
    ParseFieldMeans(other, text, decode);
    ApplyLineMeans(name, text, file, decode);
    ApplyLineMeans(other, text, file, decode);
    hide ApplyLine;
    hide ParseField;
    hide Recased;
    hide IsFieldName;
    hide IsFieldValue;
    hide StoredValue;
    hide TrimLeft;
    hide TrimRight;
    hide Trim;
    hide FormDataText;
    hide DispositionParams;
    hide DispositionEffect;
    var val := TrimLeft(TrimRight(text));
    var a := file.(headers := file.headers + [Field(name, StoredValue(name, val, decode))]);
    var b := file.(headers := file.headers + [Field(other, StoredValue(other, val, decode))]);
    if FormDataText(text).Some? { DispositionAlike(DispositionParams(FormDataText(text).value), a, b, decode); }
  }

  method StartWithCaseIgnore(a: string, b: string) returns (r: bool)
    ensures r == StartsIgnoringCase(a, b)
    ensures r <==> |b| <= |a| && Recased(a[..|b|], b)
  {
    StartsIgnoringCaseIff(a, b);
    hide Recased;
    if |a| < |b| { return false; }
    for i := 0 to |b|
      invariant forall j :: 0 <= j < i ==> ToLower(a[j]) == ToLower(b[j])
    {
      if ToLower(a[i]) != ToLower(b[i]) { return false; }
    }
    return true;
  }

  /** `parse_disposition_params`: the `set` remembers the pieces already handled. */
  method ParseDispositionParams(s: string) returns (params: seq<Param>)
    ensures params == DispositionParams(s)
  {
    var pieces := SplitPieces(s, ';');
    hide Split;
    hide ParamsOf;
    hide ParamOf;
    params := [];
    var cache: set<string> := {};
    assert pieces[0..] == pieces;
    for i := 0 to |pieces|
      invariant params + ParamsOf(pieces[i..], cache) == ParamsOf(pieces, {})
    {
      var kv := pieces[i];
      ParamsStep(pieces, i, cache);
      if kv !in cache {
        var p := ParseParam(kv);
        cache := cache + {kv};
        if p.Some? {
          AppendAssoc(params, [p.value], ParamsOf(pieces[i + 1..], cache));
          params := params + [p.value];
        }
      }
    }
    ParamsEnd(pieces, cache);
  }

  lemma ParamsStep(pieces: seq<string>, i: nat, seen: set<string>)
    requires i < |pieces|
    ensures ParamsOf(pieces[i..], seen) ==
            if pieces[i] in seen then ParamsOf(pieces[i + 1..], seen)
            else (if ParamOf(pieces[i]).Some? then [ParamOf(pieces[i]).value] + ParamsOf(pieces[i + 1..], seen + {pieces[i]})
                  else ParamsOf(pieces[i + 1..], seen + {pieces[i]}))
  {
    hide ParamOf;
    assert pieces[i..][1..] == pieces[i + 1..];
  }

  lemma ParamsEnd(pieces: seq<string>, seen: set<string>)
    ensures ParamsOf(pieces[|pieces|..], seen) == []
  {
  }

  /** The callback on `=`: the first piece becomes the key, every later one overwrites the value. */
  method ParseParam(kv: string) returns (p: Option<Param>)
    ensures p == ParamOf(kv)
  {
    var pieces := SplitPieces(kv, '=');
    SplitNonEmpty(kv, '=');
    hide Split;
    var key, val := "", "";
    for i := 0 to |pieces|
      invariant (key == "") == (i == 0)
      invariant i > 0 ==> key == pieces[0]
      invariant val == if i <= 1 then "" else pieces[i - 1]
    {
      if key == "" { key := pieces[i]; } else { val := pieces[i]; }
    }
    p := if key != "" then Some(Param(TrimQuotes(key), TrimQuotes(val))) else None;
  }

  lemma SplitNonEmpty(s: string, d: char)
    ensures forall i :: 0 <= i < |Split(s, d)| ==> Split(s, d)[i] != ""
    decreases |s|
  {
    var i := IndexOf(s, d);
    if i < |s| { SplitNonEmpty(s[i + 1..], d); }
  }
}
