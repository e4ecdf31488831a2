/** Header field lines: the `fields` grammar of RFC 9110 section 5 and `parse_header`. */
module FieldLine {
  import opened Text

  predicate IsAlnum(c: char) {
    '0' <= c <= '9' || 'A' <= c <= 'Z' || 'a' <= c <= 'z'
  }

  predicate IsTokenChar(c: char) {
    IsAlnum(c) || c == '!' || c == '#' || c == '$' || c == '%' || c == '&' || c == '\'' || c == '*' || c == '+'
    || c == '-' || c == '.' || c == '^' || c == '_' || c == '`' || c == '|' || c == '~'
  }

  const TOKEN_MARKS: string := "!#$%&'*+-.^_`|~"

  /** Token characters are letters, digits and the listed marks (RFC 9110 section 5.6.2). */
  lemma TokenCharIff(c: char)
    ensures IsTokenChar(c) <==> Alphanumeric(c) || c in TOKEN_MARKS
  {
    AlphanumericIff(c);
    hide Alphanumeric;
  }

  predicate IsFieldName(s: string) {
    s != "" && forall i :: 0 <= i < |s| ==> IsTokenChar(s[i])
  }

  /** VCHAR or obs-text. */
  predicate IsFieldVchar(c: char) {
    33 as char <= c <= 126 as char || 128 as char <= c
  }

  /** `is_field_content`; a two-octet value may not contain a space or tab. */
  predicate IsFieldValue(s: string) {
    s == ""
    || (IsFieldVchar(s[0]) && IsFieldVchar(s[|s| - 1])
        && forall i :: 0 < i < |s| - 1 ==> IsSpaceOrTab(s[i]) || IsFieldVchar(s[i]))
  }

  /** The table of `case_ignore::to_lower`: ASCII and Latin-1 capitals. */
  function ToLower(c: char): char {
    if 'A' <= c <= 'Z' || (192 as char <= c <= 222 as char && c != 215 as char)
    then (c as int + 32) as char else c
  }

  predicate EqualIgnoringCase(a: string, b: string) {
    |a| == |b| && forall i :: 0 <= i < |a| ==> ToLower(a[i]) == ToLower(b[i])
  }

  predicate StartsIgnoringCase(a: string, b: string) {
    |b| <= |a| && forall i :: 0 <= i < |b| ==> ToLower(a[i]) == ToLower(b[i])
  }

  /** The capital and the small form of one letter, in ASCII or in the upper half of ISO 8859-1. */
  predicate CapitalAndSmall(capital: char, small: char) {
    || ('A' <= capital <= 'Z' && 'a' <= small <= 'z' && capital as int - 'A' as int == small as int - 'a' as int)
    || (0xC0 <= capital as int <= 0xDE && capital as int != 0xD7 && small as int == capital as int + 0x20)
  }

  predicate SameLetter(a: char, b: char) {
    a == b || CapitalAndSmall(a, b) || CapitalAndSmall(b, a)
  }

  /** Equal but for the case of letters. */
  predicate Recased(a: string, b: string) {
    |a| == |b| && forall i :: 0 <= i < |a| ==> SameLetter(a[i], b[i])
  }

  lemma SameLower(a: char, b: char)
    ensures ToLower(a) == ToLower(b) <==> SameLetter(a, b)
  {
  }

  /** The comparison through the table tells apart exactly what differs in more than the case of letters. */
  lemma EqualIgnoringCaseIff(a: string, b: string)
    ensures EqualIgnoringCase(a, b) <==> Recased(a, b)
  {
    hide ToLower;
    hide SameLetter;
    if |a| == |b| {
      forall i | 0 <= i < |a| ensures ToLower(a[i]) == ToLower(b[i]) <==> SameLetter(a[i], b[i]) { SameLower(a[i], b[i]); }
    }
  }

  lemma StartsIgnoringCaseIff(a: string, b: string)
    ensures StartsIgnoringCase(a, b) <==> |b| <= |a| && Recased(a[..|b|], b)
  {
    hide ToLower;
    hide SameLetter;
    if |b| <= |a| {
      forall i | 0 <= i < |b| ensures ToLower(a[i]) == ToLower(b[i]) <==> SameLetter(a[..|b|][i], b[i]) { SameLower(a[i], b[i]); }
    }
  }

  lemma RecasedTwice(a: string, b: string, c: string)
    requires Recased(a, b)
    ensures Recased(b, a) && (Recased(a, c) <==> Recased(b, c))
  {
    EqualIgnoringCaseIff(a, b);
    EqualIgnoringCaseIff(b, a);
    EqualIgnoringCaseIff(a, c);
    EqualIgnoringCaseIff(b, c);
    hide Recased;
    hide ToLower;
  }

  datatype Field = Field(key: string, val: string)

  /** The value as stored: `Location` and `Referer` are kept as they are, others are percent-decoded. */
  function StoredValue(key: string, val: string, decode: string -> string): string {
    if EqualIgnoringCase(key, "Location") || EqualIgnoringCase(key, "Referer") then val else decode(val)
  }

  /** `parse_header`: a field name, a colon, optional blanks and a field value; trailing blanks are dropped. */
  function ParseField(line: string, decode: string -> string): Option<Field> {
    var s := TrimRight(line);
    var p := IndexOf(s, ':');
    if p == |s| || !IsFieldName(s[..p]) then None
    else
      var val := TrimLeft(s[p + 1..]);
      if IsFieldValue(val) then Some(Field(s[..p], StoredValue(s[..p], val, decode))) else None
  }

  /** The positions that the scan of `parse_header` finds determine its result. */
  lemma ParseFieldAt(line: string, decode: string -> string, end: nat, colon: nat, start: nat)
    requires colon <= end <= |line|
    requires end > 0 ==> !IsSpaceOrTab(line[end - 1])
    requires forall i :: end <= i < |line| ==> IsSpaceOrTab(line[i])
    requires forall j :: 0 <= j < colon ==> line[j] != ':'
    requires colon < end ==> line[colon] == ':' && colon < start <= end
    requires colon < end ==> (start < end ==> !IsSpaceOrTab(line[start]))
    requires colon < end ==> forall j :: colon < j < start ==> IsSpaceOrTab(line[j])
    ensures ParseField(line, decode) ==
            if colon == end || !IsFieldName(line[..colon]) || !IsFieldValue(line[start..end]) then None
            else Some(Field(line[..colon], StoredValue(line[..colon], line[start..end], decode)))
  {
    hide IsFieldName;
    hide IsFieldValue;
    hide StoredValue;
    BackBlanksIs(line, end);
    var s := line[..end];
    IndexOfIs(s, ':', colon);
    assert s[..colon] == line[..colon];
    if colon < end {
      var rest := s[colon + 1..];
      SkipBlanksIs(rest, start - (colon + 1));
      assert rest[start - (colon + 1)..] == line[start..end];
    }
  }

  /** A value consists of visible octets, between which there may be blanks (RFC 9110 section 5.5); control octets, DEL
      among them, have no place in it. */
  lemma FieldValueIff(s: string)
    requires Octets(s)
    ensures IsFieldValue(s) <==>
            && (forall i :: 0 <= i < |s| ==> s[i] == '\t' || (s[i] as int >= 0x20 && s[i] as int != 0x7F))
            && Trimmed(s)
  {
    assert forall i :: 0 <= i < |s| ==> IsOctet(s[i]);
    assert forall i :: 0 <= i < |s| ==>
      ((IsSpaceOrTab(s[i]) || IsFieldVchar(s[i])) <==> s[i] == '\t' || (s[i] as int >= 0x20 && s[i] as int != 0x7F));
  }

  /** Only the values of Location and Referer, in any case, are stored as they came. */
  lemma StoredValueMeans(key: string, val: string, decode: string -> string)
    ensures StoredValue(key, val, decode) == if Recased(key, "Location") || Recased(key, "Referer") then val else decode(val)
  {
    EqualIgnoringCaseIff(key, "Location");
    EqualIgnoringCaseIff(key, "Referer");
    hide Recased;
    hide EqualIgnoringCase;
  }

  /** What a line says: the text before the first colon is the name, and the text behind it without surrounding blanks is
      the value. */
  lemma ParseFieldMeans(name: string, text: string, decode: string -> string)
    requires ':' !in name
    ensures ParseField(name + ":" + text, decode) ==
            var val := TrimLeft(TrimRight(text));
            if IsFieldName(name) && IsFieldValue(val) then Some(Field(name, StoredValue(name, val, decode))) else None
  {
    hide IsFieldName;
    hide IsFieldValue;
    hide StoredValue;
    hide TrimLeft;
    FieldCut(name, text);
    hide TrimRight;
    hide IndexOf;
  }

  lemma FieldCut(name: string, text: string)
    requires ':' !in name
    ensures var s := TrimRight(name + ":" + text);
            s == name + ":" + TrimRight(text) && IndexOf(s, ':') == |name| < |s|
            && s[..|name|] == name && s[|name| + 1..] == TrimRight(text)
  {
    TrimRightBehind(name + ":", text);
    hide TrimRight;
    ColonAt(name, TrimRight(text));
  }

  lemma TrimRightBehind(front: string, text: string)
    requires front != "" && !IsSpaceOrTab(front[|front| - 1])
    ensures TrimRight(front + text) == front + TrimRight(text)
  {
    var line := front + text;
    var k := BackBlanks(text, |text|);
    var end := |front| + k;
    BehindFront(front, text);
    assert end > 0 ==> line[end - 1] == if k > 0 then text[k - 1] else front[|front| - 1];
    hide BackBlanks;
    BackBlanksIs(line, end);
    assert line[..end] == front + text[..k];
  }

  lemma BehindFront(front: string, text: string)
    ensures forall i :: |front| <= i < |front + text| ==> (front + text)[i] == text[i - |front|]
  {
  }

  lemma ColonAt(name: string, text: string)
    requires ':' !in name
    ensures var s := name + ":" + text;
            IndexOf(s, ':') == |name| && s[..|name|] == name && s[|name| + 1..] == text
  {
    var s := name + ":" + text;
    assert forall j :: 0 <= j < |name| ==> s[j] == name[j];
    IndexOfIs(s, ':', |name|);
  }

  lemma NoColonNoField(line: string, decode: string -> string)
    requires ':' !in line
    ensures ParseField(line, decode).None?
  {
  }

  /** The case of a name does not matter for whether a line is a field line, and for its value. */
  lemma RecasedField(name: string, other: string, text: string, decode: string -> string)
    requires Recased(name, other) && ':' !in name
    ensures ':' !in other
    ensures var f, g := ParseField(name + ":" + text, decode), ParseField(other + ":" + text, decode);
            (f.Some? <==> g.Some?) && (f.Some? ==> f.value.val == g.value.val && f.value.key == name && g.value.key == other)
  {
    assert forall i :: 0 <= i < |name| ==> SameLetter(name[i], other[i]);
    assert IsFieldName(name) <==> IsFieldName(other);
    RecasedTwice(name, other, "Location");
    RecasedTwice(name, other, "Referer");
    EqualIgnoringCaseIff(name, "Location");
    EqualIgnoringCaseIff(name, "Referer");
    EqualIgnoringCaseIff(other, "Location");
    EqualIgnoringCaseIff(other, "Referer");
    hide EqualIgnoringCase;
    hide Recased;
    ParseFieldMeans(name, text, decode);
    ParseFieldMeans(other, text, decode);
  }

  /** A field line in canonical form reads back as its name and value. */
  lemma ParseFieldLine(name: string, val: string, decode: string -> string)
    requires IsFieldName(name) && IsFieldValue(val)
    ensures ParseField(name + ": " + val, decode) == Some(Field(name, StoredValue(name, val, decode)))
  {
    hide ParseField;
    hide StoredValue;
    var line := name + ": " + val;
    assert line[|name|] == ':' && line[|name| + 1] == ' ';
    assert line[..|name|] == name;
    if val == "" {
      ParseFieldAt(line, decode, |name| + 1, |name|, |name| + 1);
      assert line[|name| + 1..|name| + 1] == "";
    } else {
      assert line[|line| - 1] == val[|val| - 1] && line[|name| + 2] == val[0];
      ParseFieldAt(line, decode, |line|, |name|, |name| + 2);
      assert line[|name| + 2..|line|] == val;
    }
  }

  /** `parse_header` as a scan over the line; the callback receives the returned field. */
  method ParseHeader(line: string, decode: string -> string) returns (field: Option<Field>)
    ensures field == ParseField(line, decode)
  {
    hide ParseField;
    hide IsFieldName;
    hide IsFieldValue;
    hide StoredValue;
    var end := |line|;
    while end > 0 && IsSpaceOrTab(line[end - 1])
      invariant 0 <= end <= |line|
      invariant forall i :: end <= i < |line| ==> IsSpaceOrTab(line[i])
    {
      end := end - 1;
    }
    var p := 0;
    while p < end && line[p] != ':'
      invariant 0 <= p <= end
      invariant forall j :: 0 <= j < p ==> line[j] != ':'
    {
      p := p + 1;
    }
    var keyEnd := p;
    if p < end { p := p + 1; }
    while p < end && IsSpaceOrTab(line[p])
      invariant keyEnd < end ==> keyEnd < p
      invariant keyEnd <= p <= end
      invariant forall j :: keyEnd < j < p ==> IsSpaceOrTab(line[j])
    {
      p := p + 1;
    }
    ParseFieldAt(line, decode, end, keyEnd, p);
    var name := line[..keyEnd];
    if !IsFieldName(name) { return None; }
    if keyEnd == end { return None; }
    var val := line[p..end];
    if !IsFieldValue(val) { return None; }
    field := Some(Field(name, StoredValue(name, val, decode)));
  }
}
