/** Query strings: component coding (RFC 3986 section 2.1), `params_to_query_str` and `parse_query_text`. */
module Query {
  import opened Text
  import opened FieldLine
  import opened Numbers

  // ---------- Components ----------

  function UpperHex(v: nat): (c: char)
    requires v < 16
    ensures IsHexDigit(c) && HexDigitValue(c) == v
  {
    if v < 10 then ('0' as int + v) as char else ('A' as int + (v - 10)) as char
  }

  function Percent(c: char): string
    requires IsOctet(c)
  {
    ['%', UpperHex(c as int / 16), UpperHex(c as int % 16)]
  }

  /** The octets that stand for themselves under either treatment of spaces. */
  predicate IsPlain(c: char) {
    IsAlnum(c) || c == '-' || c == '.' || c == '_' || c == '~' || c == '!' || c == '$' || c == '\'' || c == '(' || c == ')'
    || c == '*' || c == ',' || c == ';' || c == ':' || c == '@' || c == '/' || c == '?'
  }

  function EncodeOctet(c: char, spaceAsPlus: bool): string
    requires IsOctet(c)
  {
    if IsPlain(c) then [c]
    else if c == ' ' then (if spaceAsPlus then "+" else "%20")
    else if c == '+' then (if spaceAsPlus then "%2B" else "+")
    else Percent(c)
  }

  function Encode(s: string, spaceAsPlus: bool): string
    requires Octets(s)
    decreases |s|
  {
    if s == "" then "" else EncodeOctet(s[0], spaceAsPlus) + Encode(s[1..], spaceAsPlus)
  }

  lemma {:induction false} EncodeSnoc(s: string, c: char, f: bool)
    requires Octets(s) && IsOctet(c)
    ensures Encode(s + [c], f) == Encode(s, f) + EncodeOctet(c, f)
    decreases |s|
  {
    hide EncodeOctet;
    if s == "" {
      assert "" + [c] == [c] && [c][1..] == "";
      assert Encode("", f) == "" && EncodeOctet(c, f) + "" == EncodeOctet(c, f) == "" + EncodeOctet(c, f);
    } else {
      assert (s + [c])[1..] == s[1..] + [c];
      EncodeSnoc(s[1..], c, f);
      AppendAssoc(EncodeOctet(s[0], f), Encode(s[1..], f), EncodeOctet(c, f));
    }
  }

  method EncodeQueryComponent(component: string, spaceAsPlus: bool := true) returns (result: string)
    requires Octets(component)
    ensures result == Encode(component, spaceAsPlus)
  {
    hide Encode;
    result := "";
    assert Encode("", spaceAsPlus) == "" by { EncodeNothing(spaceAsPlus); }
    for i := 0 to |component|
      invariant result == Encode(component[..i], spaceAsPlus)
    {
      var c := component[i];
      assert component[..i + 1] == component[..i] + [c];
      EncodeSnoc(component[..i], c, spaceAsPlus);
      if IsPlain(c) {
        result := result + [c];
      } else if c == ' ' {
        if spaceAsPlus { result := result + "+"; } else { result := result + "%20"; }
      } else if c == '+' {
        if spaceAsPlus { result := result + "%2B"; } else { result := result + [c]; }
      } else {
        result := result + Percent(c);
      }
    }
    assert component[..|component|] == component;
  }

  lemma EncodeNothing(f: bool)
    ensures Encode("", f) == ""
  {
  }

  /** A percent sign is decoded when two octets follow that `strtoul` reads entirely, which it also does for a blank or
      a sign before a digit. */
  function Decode(s: string, plusAsSpace: bool): string
    decreases |s|
  {
    if s == "" then ""
    else if s[0] == '%' && |s| > 2 && Strtoul16(s[1..3]).used == 2 then
      [(Strtoul16(s[1..3]).value % 256) as char] + Decode(s[3..], plusAsSpace)
    else if s[0] == '+' && plusAsSpace then " " + Decode(s[1..], plusAsSpace)
    else [s[0]] + Decode(s[1..], plusAsSpace)
  }

  lemma DecodeStep(s: string, f: bool)
    ensures s == "" ==> Decode(s, f) == ""
    ensures s != "" && s[0] == '%' && |s| > 2 && Strtoul16(s[1..3]).used == 2 ==>
              Decode(s, f) == [(Strtoul16(s[1..3]).value % 256) as char] + Decode(s[3..], f)
    ensures s != "" && s[0] == '%' && !(|s| > 2 && Strtoul16(s[1..3]).used == 2) ==> Decode(s, f) == ['%'] + Decode(s[1..], f)
    ensures s != "" && s[0] != '%' ==> Decode(s, f) == [if s[0] == '+' && f then ' ' else s[0]] + Decode(s[1..], f)
  {
    hide Strtoul16;
  }

  method DecodeQueryComponent(component: string, plusAsSpace: bool := true) returns (result: string)
    ensures result == Decode(component, plusAsSpace)
  {
    hide Decode;
    hide Strtoul16;
    result := "";
    var i := 0;
    ghost var goal := Decode(component, plusAsSpace);
    assert component[0..] == component && "" + goal == goal;
    while i < |component|
      invariant 0 <= i <= |component|
      invariant goal == result + Decode(component[i..], plusAsSpace)
    {
      ghost var rest := component[i..];
      DecodeStep(rest, plusAsSpace);
      assert rest[1..] == component[i + 1..];
      if component[i] == '%' && i + 2 < |component| {
        var hex := component[i + 1..i + 3];
        assert rest[1..3] == hex && rest[3..] == component[i + 3..];
        var r := Strtoul16(hex);
        if r.used == |hex| {
          AppendAssoc(result, [(r.value % 256) as char], Decode(component[i + 3..], plusAsSpace));
          result := result + [(r.value % 256) as char];
          i := i + 2;
        } else {
          AppendAssoc(result, ['%'], Decode(component[i + 1..], plusAsSpace));
          result := result + [component[i]];
        }
      } else if component[i] == '+' && plusAsSpace {
        AppendAssoc(result, [' '], Decode(component[i + 1..], plusAsSpace));
        result := result + [' '];
      } else {
        AppendAssoc(result, [component[i]], Decode(component[i + 1..], plusAsSpace));
        result := result + [component[i]];
      }
      i := i + 1;
    }
    DecodeStep(component[i..], plusAsSpace);
    assert result + "" == result;
  }

  // ---------- Encoding and decoding again ----------

  lemma TwoHexDigits(v: nat)
    requires v < 256
    ensures Strtoul16([UpperHex(v / 16), UpperHex(v % 16)]) == Parsed(v, 2)
  {
    var s := [UpperHex(v / 16), UpperHex(v % 16)];
    HexEndIs(s, 0, 2);
    assert s[0..2] == s && s[..1] == [s[0]] && [s[0]][..0] == "";
    assert HexValue([s[0]]) == HexDigitValue(s[0]);
  }

  /** What becomes of one octet that is encoded with one treatment of spaces and decoded with another. */
  function Changed(c: char, f: bool, g: bool): char {
    if f && !g && c == ' ' then '+' else if !f && g && c == '+' then ' ' else c
  }

  lemma OctetBack(c: char, f: bool, g: bool, rest: string)
    requires IsOctet(c)
    ensures Decode(EncodeOctet(c, f) + rest, g) == [Changed(c, f, g)] + Decode(rest, g)
  {
    hide Decode;
    hide Strtoul16;
    var e := EncodeOctet(c, f);
    var s := e + rest;
    DecodeStep(s, g);
    if |e| == 1 {
      assert s[0] == e[0] && s[1..] == rest;
    } else {
      assert e == Percent(c) by { SpaceAndPlus(); }
      assert s[0] == '%' && s[1..3] == [UpperHex(c as int / 16), UpperHex(c as int % 16)] && s[3..] == rest;
      TwoHexDigits(c as int);
    }
  }

  lemma SpaceAndPlus()
    ensures Percent(' ') == "%20" && Percent('+') == "%2B"
  {
  }

  function AllChanged(s: string, f: bool, g: bool): (r: string)
    ensures |r| == |s| && forall i :: 0 <= i < |s| ==> r[i] == Changed(s[i], f, g)
  {
    seq(|s|, i requires 0 <= i < |s| => Changed(s[i], f, g))
  }

  lemma {:induction false} EncodeDecode(s: string, f: bool, g: bool)
    requires Octets(s)
    ensures Decode(Encode(s, f), g) == AllChanged(s, f, g)
    decreases |s|
  {
    hide Decode;
    hide EncodeOctet;
    if s == "" {
      DecodeStep("", g);
    } else {
      OctetBack(s[0], f, g, Encode(s[1..], f));
      EncodeDecode(s[1..], f, g);
    }
  }

  /** Decoding inverts encoding exactly when the two flags agree, or the octet that they treat differently is absent. */
  lemma ComponentRoundTripIff(s: string, f: bool, g: bool)
    requires Octets(s)
    ensures Decode(Encode(s, f), g) == s <==> f == g || (f && ' ' !in s) || (!f && '+' !in s)
  {
    hide Decode;
    hide Encode;
    EncodeDecode(s, f, g);
    var r := AllChanged(s, f, g);
    if f && !g && ' ' in s {
      var i :| 0 <= i < |s| && s[i] == ' ';
      assert r[i] != s[i];
    } else if !f && g && '+' in s {
      var i :| 0 <= i < |s| && s[i] == '+';
      assert r[i] != s[i];
    }
  }

  predicate Separator(c: char) { c == '&' || c == '=' || c == ' ' || c == '\t' }

  /** Encoded text is free of what separates pairs, keys and values, and of what trimming removes. */
  lemma {:induction false} EncodedPlain(s: string, f: bool)
    requires Octets(s)
    ensures forall i :: 0 <= i < |Encode(s, f)| ==> !Separator(Encode(s, f)[i])
    decreases |s|
  {
    if s != "" {
      EncodedPlain(s[1..], f);
      var e := EncodeOctet(s[0], f);
      assert forall i :: 0 <= i < |e| ==> !Separator(e[i]);
    }
  }

  // ---------- The alphabet ----------

  const MARKS: string := "-._~!$'()*,;:@/?"

  /** The octets that are written as they are. */
  predicate Unescaped(c: char) { Alphanumeric(c) || c in MARKS }

  lemma MarksAre(c: char)
    ensures c in MARKS <==>
            c == '-' || c == '.' || c == '_' || c == '~' || c == '!' || c == '$' || c == '\'' || c == '(' || c == ')'
            || c == '*' || c == ',' || c == ';' || c == ':' || c == '@' || c == '/' || c == '?'
  {
  }

  lemma UnescapedIff(c: char)
    ensures IsPlain(c) <==> Unescaped(c)
  {
    AlphanumericIff(c);
    MarksAre(c);
    hide MARKS;
  }

  /** A percent sign and the two upper-case hexadecimal digits of the octet. */
  ghost predicate Escape(e: string, c: char) {
    && |e| == 3 && e[0] == '%' && IsHexDigit(e[1]) && IsHexDigit(e[2])
    && !('a' <= e[1] <= 'f') && !('a' <= e[2] <= 'f')
    && HexDigitValue(e[1]) * 16 + HexDigitValue(e[2]) == c as int
  }

  /** What is written for each octet. */
  lemma EncodeOctetMeans(c: char, spaceAsPlus: bool)
    requires IsOctet(c)
    ensures var e := EncodeOctet(c, spaceAsPlus);
            if Unescaped(c) || (c == '+' && !spaceAsPlus) then e == [c]
            else if c == ' ' && spaceAsPlus then e == "+"
            else Escape(e, c)
  {
    UnescapedIff(c);
    hide Unescaped;
    SpaceAndPlus();
  }

  /** The text of an encoded component: octets of the alphabet, plus signs, and whole escapes. */
  ghost predicate Component(e: string)
    decreases |e|
  {
    || e == ""
    || ((Unescaped(e[0]) || e[0] == '+') && Component(e[1..]))
    || (|e| >= 3 && e[0] == '%' && IsHexDigit(e[1]) && IsHexDigit(e[2]) && Component(e[3..]))
  }

  lemma {:induction false} EncodedAlphabet(s: string, spaceAsPlus: bool)
    requires Octets(s)
    ensures Component(Encode(s, spaceAsPlus))
    decreases |s|
  {
    hide Unescaped;
    hide EncodeOctet;
    if s != "" {
      EncodeOctetMeans(s[0], spaceAsPlus);
      EncodedAlphabet(s[1..], spaceAsPlus);
      var e, more := EncodeOctet(s[0], spaceAsPlus), Encode(s[1..], spaceAsPlus);
      var all := e + more;
      if |e| == 1 {
        assert all[0] == e[0] && all[1..] == more;
      } else {
        assert all[0] == e[0] && all[1] == e[1] && all[2] == e[2] && all[3..] == more;
      }
    }
  }

  // ---------- Parameters ----------

  datatype Pair = Pair(key: string, val: string)

  /** `std::multimap`: pairs in key order, equal keys in the order of their insertion. */
  type Params = seq<Pair>

  /** The order of `std::string`. */
  predicate Less(a: string, b: string)
    decreases |a|
  {
    b != "" && (a == "" || a[0] < b[0] || (a[0] == b[0] && Less(a[1..], b[1..])))
  }

  /** At `k` the texts part: there `a` has ended or has the smaller octet. */
  ghost predicate PartsAt(a: string, b: string, k: nat) {
    k <= |a| && k < |b| && a[..k] == b[..k] && (k == |a| || a[k] < b[k])
  }

  lemma {:induction false} LessIff(a: string, b: string)
    ensures Less(a, b) <==> exists k: nat :: PartsAt(a, b, k)
    decreases |a|
  {
    if Less(a, b) {
      if a == "" || a[0] < b[0] {
        assert a[..0] == b[..0];
        assert PartsAt(a, b, 0);
      } else {
        LessIff(a[1..], b[1..]);
        var k: nat :| PartsAt(a[1..], b[1..], k);
        assert a[..k + 1] == [a[0]] + a[1..][..k] && b[..k + 1] == [b[0]] + b[1..][..k];
        assert PartsAt(a, b, k + 1);
      }
    }
    if k: nat :| PartsAt(a, b, k) {
      if k > 0 {
        assert a[0] == a[..k][0] == b[..k][0] == b[0];
        assert a[1..][..k - 1] == a[..k][1..] && b[1..][..k - 1] == b[..k][1..];
        assert PartsAt(a[1..], b[1..], k - 1);
        LessIff(a[1..], b[1..]);
      }
    }
  }

  ghost predicate Ordered(p: Params) {
    forall i, j :: 0 <= i < j < |p| ==> !Less(p[j].key, p[i].key)
  }

  function UpperBound(p: Params, key: string, i: nat): (k: nat)
    requires i <= |p|
    ensures i <= k <= |p|
    ensures k < |p| ==> Less(key, p[k].key)
    ensures forall j :: i <= j < k ==> !Less(key, p[j].key)
    decreases |p| - i
  {
    if i < |p| && !Less(key, p[i].key) then UpperBound(p, key, i + 1) else i
  }

  function Emplace(p: Params, kv: Pair): Params {
    var k := UpperBound(p, kv.key, 0);
    p[..k] + [kv] + p[k..]
  }

  lemma {:induction false} NotLessTrans(a: string, b: string, c: string)
    requires !Less(b, a) && !Less(c, b)
    ensures !Less(c, a)
    decreases |a|
  {
    if a != "" && b != "" && c != "" && a[0] == b[0] == c[0] { NotLessTrans(a[1..], b[1..], c[1..]); }
  }

  lemma {:induction false} LessNotLess(a: string, b: string)
    requires Less(a, b)
    ensures !Less(b, a)
    decreases |a|
  {
    if a != "" && a[0] == b[0] { LessNotLess(a[1..], b[1..]); }
  }

  lemma InsertedOrdered(p: Params, kv: Pair, k: nat)
    requires Ordered(p) && k <= |p|
    requires forall j :: 0 <= j < k ==> !Less(kv.key, p[j].key)
    requires forall j :: k <= j < |p| ==> !Less(p[j].key, kv.key)
    ensures Ordered(p[..k] + [kv] + p[k..])
  {
    hide Less;
    var q := p[..k] + [kv] + p[k..];
    forall i, j | 0 <= i < j < |q| ensures !Less(q[j].key, q[i].key) {
      assert q[i] == if i < k then p[i] else if i == k then kv else p[i - 1];
      assert q[j] == if j < k then p[j] else if j == k then kv else p[j - 1];
    }
  }

  lemma AboveBound(p: Params, key: string, k: nat, j: nat)
    requires Ordered(p) && k <= j < |p| && Less(key, p[k].key)
    ensures !Less(p[j].key, key) && Less(key, p[j].key)
  {
    hide Less;
    LessNotLess(key, p[k].key);
    if k < j {
      NotLessTrans(key, p[k].key, p[j].key);
      LessTrans(key, p[k].key, p[j].key);
    }
  }

  lemma InsertedPair(p: Params, kv: Pair, k: nat)
    requires k <= |p|
    ensures multiset(p[..k] + [kv] + p[k..]) == multiset(p) + multiset{kv}
  {
    assert p == p[..k] + p[k..];
  }

  lemma {:induction false} LessTrans(a: string, b: string, c: string)
    requires Less(a, b) && !Less(c, b)
    ensures Less(a, c)
    decreases |a|
  {
    if a != "" && a[0] == b[0] == c[0] { LessTrans(a[1..], b[1..], c[1..]); }
  }

  /** Insertion keeps the order and adds just the pair, behind all pairs whose key is not greater, those with an equal
      key among them, and before all others. */
  lemma EmplaceKeeps(p: Params, kv: Pair)
    requires Ordered(p)
    ensures Ordered(Emplace(p, kv)) && multiset(Emplace(p, kv)) == multiset(p) + multiset{kv}
    ensures exists k :: 0 <= k <= |p| && Emplace(p, kv) == p[..k] + [kv] + p[k..] && Splits(p, kv.key, k)
  {
    hide Less;
    hide Ordered;
    var k := UpperBound(p, kv.key, 0);
    forall j | k <= j < |p| ensures !Less(p[j].key, kv.key) && Less(kv.key, p[j].key) { AboveBound(p, kv.key, k, j); }
    assert Splits(p, kv.key, k);
    InsertedOrdered(p, kv, k);
    InsertedPair(p, kv, k);
  }

  /** Exactly the first `k` keys are not greater than this one. */
  ghost predicate Splits(p: Params, key: string, k: int) {
    && (forall j :: 0 <= j < k && j < |p| ==> !Less(key, p[j].key))
    && (forall j :: 0 <= k <= j < |p| ==> Less(key, p[j].key))
  }

  // ---------- Printing and parsing ----------

  function PairText(kv: Pair): string
    requires Octets(kv.key) && Octets(kv.val)
  {
    Encode(kv.key, true) + "=" + Encode(kv.val, true)
  }

  ghost predicate OctetPairs(p: seq<Pair>) {
    forall i :: 0 <= i < |p| ==> Octets(p[i].key) && Octets(p[i].val)
  }

  function QueryText(p: seq<Pair>): string
    requires forall i :: 0 <= i < |p| ==> Octets(p[i].key) && Octets(p[i].val)
    decreases |p|
  {
    if p == [] then ""
    else if |p| == 1 then PairText(p[0])
    else QueryText(p[..|p| - 1]) + "&" + PairText(p[|p| - 1])
  }

  method ParamsToQueryStr(params: Params) returns (query: string)
    requires forall i :: 0 <= i < |params| ==> Octets(params[i].key) && Octets(params[i].val)
    ensures query == QueryText(params)
  {
    hide Encode;
    hide Octets;
    query := "";
    for i := 0 to |params|
      invariant query == QueryText(params[..i])
    {
      assert params[..i + 1][..i] == params[..i];
      ghost var before := query;
      if i != 0 { query := query + "&"; }
      ghost var mid := query;
      var key := EncodeQueryComponent(params[i].key);
      var val := EncodeQueryComponent(params[i].val);
      query := query + key;
      query := query + "=";
      query := query + val;
      assert query == mid + PairText(params[i]) by { PairAssoc(mid, key, val); }
      if i == 0 { assert query == PairText(params[i]) && params[..1] == [params[0]]; }
    }
    assert params[..|params|] == params;
  }

  lemma PairAssoc(a: string, key: string, val: string)
    ensures a + key + "=" + val == a + (key + "=" + val)
  {
  }

  /** `divide`: at the first separator; all of it on the left when there is none. */
  method Divide(data: string, d: char) returns (lhs: string, rhs: string)
    ensures (lhs, rhs) == Divided(data, d)
    ensures d !in lhs && if d in data then data == lhs + [d] + rhs else lhs == data && rhs == ""
  {
    var it := 0;
    while it < |data| && data[it] != d
      invariant 0 <= it <= |data|
      invariant forall j :: 0 <= j < it ==> data[j] != d
    {
      it := it + 1;
    }
    IndexOfIs(data, d, it);
    assert data[|data|..] == "";
    var found := if it != |data| then 1 else 0;
    lhs := data[..it];
    rhs := data[it + found..];
  }

  function Divided(s: string, d: char): (string, string) {
    var i := IndexOf(s, d);
    (s[..i], if i == |s| then "" else s[i + 1..])
  }

  function WithPiece(piece: string, params: Params): Params {
    var kv := Divided(piece, '=');
    if kv.0 == "" then params else Emplace(params, Pair(Decode(kv.0, true), Decode(kv.1, true)))
  }

  /** The pieces from the left; a piece seen before, as text, is passed over. */
  function ParsePairs(pieces: seq<string>, seen: set<string>, params: Params): Params
    decreases |pieces|
  {
    if pieces == [] then params
    else if pieces[0] in seen then ParsePairs(pieces[1..], seen, params)
    else ParsePairs(pieces[1..], seen + {pieces[0]}, WithPiece(pieces[0], params))
  }

  function ParseQuery(text: string, params: Params): Params {
    ParsePairs(Split(text, '&'), {}, params)
  }

  method ParseQueryText(text: string, params0: Params) returns (params: Params)
    ensures params == ParseQuery(text, params0)
  {
    hide Split;
    hide Decode;
    hide Emplace;
    hide Divided;
    params := params0;
    var cache: set<string> := {};
    var pieces := SplitPieces(text, '&');
    assert pieces[0..] == pieces;
    for i := 0 to |pieces|
      invariant ParsePairs(pieces[i..], cache, params) == ParseQuery(text, params0)
    {
      var piece := pieces[i];
      assert pieces[i..][1..] == pieces[i + 1..];
      if piece in cache { continue; }
      cache := cache + {piece};
      var key, val := Divide(piece, '=');
      if key != "" {
        var k := DecodeQueryComponent(key);
        var v := DecodeQueryComponent(val);
        params := Emplace(params, Pair(k, v));
      }
    }
    assert pieces[|pieces|..] == [];
  }
}
