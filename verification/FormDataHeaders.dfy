/** The header parser undoes the header block that the serializer writes. */
module FormDataHeaders {
  import opened Text
  import opened FieldLine
  import opened PartHeader
  import opened FormDataSpec
  import opened FormDataSerializing

  /** A name that can stand between the quotes: printable, with none of the three delimiters. */
  predicate CleanName(s: string) {
    forall i :: 0 <= i < |s| ==>
      (IsSpaceOrTab(s[i]) || IsFieldVchar(s[i])) && s[i] != '"' && s[i] != ';' && s[i] != '='
  }

  predicate CleanItem(item: Item) {
    && CleanName(item.name)
    && CleanName(item.filename)
    && IsFieldValue(item.contentType)
    && |DispositionLine(item)| < HEADER_MAX_LENGTH
    && |TypeLine(item)| < HEADER_MAX_LENGTH
  }

  lemma QuotedPiece(key: string, val: string)
    requires IsFieldName(key) && CleanName(val)
    ensures Trimmed(Quoted(key, val)) && Quoted(key, val) != ""
    ensures ';' !in Quoted(key, val)
    ensures Quoted(key, val)[0] == key[0]
  {
  }

  lemma QuotedSplit(key: string, val: string)
    requires IsFieldName(key) && CleanName(val)
    ensures Split(Quoted(key, val), '=') == [key, "\"" + val + "\""]
  {
    hide Trim;
    var quoted := "\"" + val + "\"";
    assert Quoted(key, val) == key + ['='] + quoted;
    SplitCons(key, '=', quoted);
    SplitLast(quoted, '=');
    TrimTrimmed(key);
    TrimTrimmed(quoted);
  }

  /** A quoted parameter is read back as its key and its unquoted value. */
  lemma QuotedParam(key: string, val: string)
    requires IsFieldName(key) && CleanName(val)
    ensures ParamOf(Quoted(key, val)) == Some(Param(key, val))
  {
    hide Split;
    hide Quoted;
    QuotedSplit(key, val);
    var quoted := "\"" + val + "\"";
    assert quoted[1..|quoted| - 1] == val;
    assert key[0] != '"';
  }

  lemma KeysAreNames()
    ensures IsFieldName(NameKey()) && IsFieldName(FilenameKey())
    ensures NameKey() != FilenameKey() && NameKey()[0] != FilenameKey()[0]
    ensures NameKey() != "filename*" && FilenameKey() != "filename*"
    ensures NameKey() == "name" && FilenameKey() == "filename"
    ensures Trimmed(NameKey()) && Trimmed(FilenameKey())
  {
  }

  ghost function ExpectedParams(item: Item): seq<Param> {
    if item.filename == "" then [Param(NameKey(), item.name)]
    else [Param(NameKey(), item.name), Param(FilenameKey(), item.filename)]
  }

  lemma ParametersParsed(item: Item)
    requires CleanName(item.name) && CleanName(item.filename)
    ensures DispositionParams(Parameters(item)) == ExpectedParams(item)
  {
    hide NameKey;
    hide FilenameKey;
    hide ParamOf;
    hide Quoted;
    hide CleanName;
    KeysAreNames();
    var a := Quoted(NameKey(), item.name);
    QuotedPiece(NameKey(), item.name);
    QuotedParam(NameKey(), item.name);
    TrimTrimmed(a);
    if item.filename == "" {
      SplitLast(a, ';');
      OneParam(a);
    } else {
      var f := Quoted(FilenameKey(), item.filename);
      QuotedPiece(FilenameKey(), item.filename);
      QuotedParam(FilenameKey(), item.filename);
      TrimLeading(f);
      assert Parameters(item) == a + [';'] + (" " + f);
      SplitCons(a, ';', " " + f);
      assert forall i :: 0 <= i < |" " + f| ==> (" " + f)[i] != ';';
      SplitLast(" " + f, ';');
      assert Split(Parameters(item), ';') == [a, f];
      assert a[0] != f[0];
      TwoParams(a, f);
    }
  }

  lemma OneParam(a: string)
    requires ParamOf(a).Some?
    ensures ParamsOf([a], {}) == [ParamOf(a).value]
  {
    hide ParamOf;
    assert [a][1..] == [];
  }

  lemma TwoParams(a: string, f: string)
    requires a != f && ParamOf(a).Some? && ParamOf(f).Some?
    ensures ParamsOf([a, f], {}) == [ParamOf(a).value, ParamOf(f).value]
  {
    hide ParamOf;
    assert [a, f][1..] == [f];
    assert ParamsOf([f], {} + {a}) == [ParamOf(f).value];
  }

  /** A blank in front of a trimmed text is trimmed away. */
  lemma TrimLeading(s: string)
    requires Trimmed(s) && s != ""
    ensures Trim(" " + s) == s && TrimLeft(" " + s) == s
  {
    var t := " " + s;
    assert SkipBlanks(t, 0) == 1;
    assert t[1..] == s;
    TrimTrimmed(s);
    assert BackBlanks(s, |s|) == |s|;
  }

  lemma ParametersText(item: Item)
    requires CleanName(item.name) && CleanName(item.filename)
    ensures var p := Parameters(item);
            p != "" && Trimmed(p) && p[|p| - 1] == '"'
            && forall i :: 0 <= i < |p| ==> IsSpaceOrTab(p[i]) || IsFieldVchar(p[i])
  {
  }

  ghost function DispositionText(item: Item): string {
    FormDataName() + " " + Parameters(item)
  }

  lemma DispositionIsValue(item: Item)
    requires CleanName(item.name) && CleanName(item.filename)
    ensures IsFieldValue(DispositionText(item)) && DispositionText(item) != "" && Trimmed(DispositionText(item))
  {
    hide Parameters;
    ParametersText(item);
  }

  lemma DispositionSplit(item: Item)
    ensures var line := DispositionLine(item);
            line == CONTENT_DISPOSITION + (" " + DispositionText(item))
            && line[|CONTENT_DISPOSITION|..] == " " + DispositionText(item)
            && StartsIgnoringCase(line, CONTENT_DISPOSITION)
            && !StartsIgnoringCase(line, CONTENT_TYPE)
  {
    hide DispositionText;
    hide Parameters;
    hide DispositionName;
    hide StartsIgnoringCase;
    DispositionTextIs(item);
    var text := DispositionText(item);
    assert DispositionName() + ": " + text == DispositionName() + ":" + (" " + text);
    NotAType(" " + text);
  }

  lemma NotAType(rest: string)
    ensures DispositionName() + ":" == CONTENT_DISPOSITION
    ensures (CONTENT_DISPOSITION + rest)[|CONTENT_DISPOSITION|..] == rest
    ensures StartsIgnoringCase(CONTENT_DISPOSITION + rest, CONTENT_DISPOSITION)
    ensures !StartsIgnoringCase(CONTENT_DISPOSITION + rest, CONTENT_TYPE)
  {
    assert ToLower((CONTENT_DISPOSITION + rest)[8]) != ToLower(CONTENT_TYPE[8]);
  }

  lemma DispositionTextIs(item: Item)
    ensures DispositionText(item) == FormDataName() + " " + Parameters(item)
  {
  }

  lemma FormDataSplit(item: Item)
    ensures var text := DispositionText(item);
            StartsIgnoringCase(text, FORM_DATA) && text[|FORM_DATA|..] == " " + Parameters(item)
  {
    hide Parameters;
    assert DispositionText(item) == FORM_DATA + (" " + Parameters(item));
  }

  lemma DispositionMatched(item: Item)
    requires CleanName(item.name) && CleanName(item.filename)
    ensures !StartsIgnoringCase(DispositionLine(item), CONTENT_TYPE)
    ensures MatchDisposition(DispositionLine(item)) == Some(Parameters(item))
  {
    hide Parameters;
    hide DispositionText;
    hide DispositionLine;
    hide StartsIgnoringCase;
    hide TrimLeft;
    hide CleanName;
    DispositionIsValue(item);
    ParametersText(item);
    DispositionSplit(item);
    TrimLeading(DispositionText(item));
    FormDataSplit(item);
    TrimLeading(Parameters(item));
  }

  ghost function DispositionField(item: Item, decode: string -> string): Field {
    Field(DispositionName(), decode(DispositionText(item)))
  }

  lemma ExpectedEffect(item: Item, file: FormData, decode: string -> string)
    ensures DispositionEffect(ExpectedParams(item), file, decode)
         == LineEffect(true, file.(name := item.name,
                                   filename := if item.filename == "" then file.filename else item.filename))
  {
    hide NameKey;
    hide FilenameKey;
    KeysAreNames();
    var params := ExpectedParams(item);
    if item.filename != "" {
      assert params[1..] == [Param(FilenameKey(), item.filename)];
      assert params[1..][1..] == [];
      assert Lookup(params, "name") == Some(item.name);
      assert Lookup(params, "filename") == Some(item.filename);
      assert Lookup(params[1..], "filename*") == None;
    } else {
      assert params[1..] == [];
      assert Lookup(params, "name") == Some(item.name);
      assert Lookup(params, "filename") == None;
      assert Lookup(params, "filename*") == None;
    }
  }

  lemma DispositionApplied(item: Item, decode: string -> string)
    requires CleanName(item.name) && CleanName(item.filename)
    ensures ApplyLine(DispositionLine(item), NO_FILE, decode)
         == LineEffect(true, FormData(item.name, item.filename, "", [DispositionField(item, decode)]))
  {
    hide Parameters;
    hide MatchDisposition;
    hide DispositionParams;
    hide DispositionEffect;
    hide ExpectedParams;
    hide ParseField;
    hide StartsIgnoringCase;
    DispositionIsValue(item);
    DispositionNameKept(DispositionText(item), decode);
    ParseFieldLine(DispositionName(), DispositionText(item), decode);
    DispositionMatched(item);
    ParametersParsed(item);
    ExpectedEffect(item, NO_FILE.(headers := NO_FILE.headers + [DispositionField(item, decode)]), decode);
  }

  lemma DispositionNameKept(val: string, decode: string -> string)
    ensures IsFieldName(DispositionName()) && IsFieldName(TypeName())
    ensures StoredValue(DispositionName(), val, decode) == decode(val)
    ensures StoredValue(TypeName(), val, decode) == decode(val)
  {
  }

  ghost function TypeField(item: Item, decode: string -> string): Field {
    Field(TypeName(), decode(item.contentType))
  }

  lemma TypeApplied(item: Item, file: FormData, decode: string -> string)
    requires IsFieldValue(item.contentType) && item.contentType != ""
    ensures ApplyLine(TypeLine(item), file, decode)
         == LineEffect(true, file.(contentType := item.contentType, headers := file.headers + [TypeField(item, decode)]))
  {
    hide ParseField;
    hide MatchDisposition;
    hide Trim;
    hide StoredValue;
    DispositionNameKept(item.contentType, decode);
    ParseFieldLine(TypeName(), item.contentType, decode);
    assert TypeName() + ":" == CONTENT_TYPE;
    assert TypeLine(item)[|CONTENT_TYPE|..] == " " + item.contentType;
    TrimLeading(item.contentType);
  }

  /** The header fields that the parser stores for a serialized item. */
  ghost function ExpectedFile(item: Item, decode: string -> string): FormData {
    FormData(item.name, item.filename, item.contentType,
             [DispositionField(item, decode)] + if item.contentType == "" then [] else [TypeField(item, decode)])
  }
}
