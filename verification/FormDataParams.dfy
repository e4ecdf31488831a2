/** What the parameters of a Content-Disposition line do to a part, whatever parameters there are and in any order. */
module FormDataParams {
  import opened Text
  import opened FieldLine
  import opened PartHeader
  import opened FormDataSerializing
  import opened FormDataHeaders

  function ParamsText(params: seq<Param>): string
    decreases |params|
  {
    if params == [] then ""
    else if |params| == 1 then Quoted(params[0].key, params[0].val)
    else Quoted(params[0].key, params[0].val) + "; " + ParamsText(params[1..])
  }

  ghost predicate CleanParams(params: seq<Param>) {
    && (forall i :: 0 <= i < |params| ==> IsFieldName(params[i].key) && CleanName(params[i].val))
    && (forall i, j :: 0 <= i < j < |params| ==> params[i] != params[j])
  }

  function Texts(params: seq<Param>): seq<string>
    decreases |params|
  {
    if params == [] then [] else [Quoted(params[0].key, params[0].val)] + Texts(params[1..])
  }

  lemma FirstPiece(lead: string, params: seq<Param>)
    requires params != [] && CleanParams(params) && (lead == "" || lead == " ")
    ensures var q := Quoted(params[0].key, params[0].val); Piece(lead + q) == [q] && ';' !in lead + q
    ensures CleanParams(params[1..])
  {
    hide Quoted;
    hide CleanName;
    hide IsFieldName;
    hide Piece;
    QuotedPiece(params[0].key, params[0].val);
    LedPiece(lead, Quoted(params[0].key, params[0].val));
  }

  lemma {:induction false} TextsSplit(lead: string, params: seq<Param>)
    requires params != [] && CleanParams(params) && (lead == "" || lead == " ")
    ensures Split(lead + ParamsText(params), ';') == Texts(params)
    decreases |params|
  {
    hide Split;
    hide Quoted;
    hide Piece;
    FirstPiece(lead, params);
    hide CleanParams;
    TextCut(lead, params);
    hide ParamsText;
    var q := Quoted(params[0].key, params[0].val);
    if |params| == 1 {
      SplitLast(lead + q, ';');
      assert params[1..] == [];
    } else {
      SplitCons(lead + q, ';', " " + ParamsText(params[1..]));
      TextsSplit(" ", params[1..]);
    }
  }

  lemma TextCut(lead: string, params: seq<Param>)
    requires params != []
    ensures var q := Quoted(params[0].key, params[0].val);
            lead + ParamsText(params) ==
            if |params| == 1 then lead + q else (lead + q) + [';'] + (" " + ParamsText(params[1..]))
  {
    hide Quoted;
    var q := Quoted(params[0].key, params[0].val);
    if |params| > 1 {
      var rest := ParamsText(params[1..]);
      assert ParamsText(params) == q + "; " + rest;
      hide ParamsText;
      SemicolonCut(lead, q, rest);
    }
  }

  lemma SemicolonCut(lead: string, q: string, rest: string)
    ensures lead + (q + "; " + rest) == (lead + q) + [';'] + (" " + rest)
  {
    assert q + "; " + rest == q + ([';'] + (" " + rest));
  }

  lemma LedPiece(lead: string, s: string)
    requires Trimmed(s) && s != "" && (lead == "" || lead == " ")
    ensures Piece(lead + s) == [s]
  {
    hide Trim;
    TrimTrimmed(s);
    TrimLeading(s);
    assert "" + s == s;
  }

  ghost predicate NoneSeen(params: seq<Param>, seen: set<string>) {
    forall i :: 0 <= i < |params| ==> Quoted(params[i].key, params[i].val) !in seen
  }

  lemma OthersDiffer(params: seq<Param>, seen: set<string>)
    requires params != [] && CleanParams(params) && NoneSeen(params, seen)
    ensures var q := Quoted(params[0].key, params[0].val);
            q !in seen && CleanParams(params[1..]) && NoneSeen(params[1..], seen + {q})
  {
    hide Quoted;
    hide CleanName;
    hide IsFieldName;
    hide ParamOf;
    var p, more := params[0], params[1..];
    QuotedParam(p.key, p.val);
    forall i | 0 <= i < |more| ensures Quoted(more[i].key, more[i].val) !in seen + {Quoted(p.key, p.val)} {
      assert more[i] == params[i + 1] && params[0] != params[i + 1];
      QuotedParam(more[i].key, more[i].val);
    }
  }

  lemma {:induction false} TextsBack(params: seq<Param>, seen: set<string>)
    requires CleanParams(params) && NoneSeen(params, seen)
    ensures ParamsOf(Texts(params), seen) == params
    decreases |params|
  {
    hide Quoted;
    hide ParamOf;
    if params != [] {
      var p, more := params[0], params[1..];
      var q := Quoted(p.key, p.val);
      assert IsFieldName(p.key) && CleanName(p.val);
      QuotedParam(p.key, p.val);
      OthersDiffer(params, seen);
      hide CleanParams;
      hide NoneSeen;
      TextsBack(more, seen + {q});
      assert Texts(params) == [q] + Texts(more);
      hide Texts;
      ParamsCons(q, Texts(more), seen);
      assert params == [p] + more;
    }
  }

  lemma ParamsCons(q: string, more: seq<string>, seen: set<string>)
    requires q !in seen && ParamOf(q).Some?
    ensures ParamsOf([q] + more, seen) == [ParamOf(q).value] + ParamsOf(more, seen + {q})
  {
    hide ParamOf;
    assert ([q] + more)[1..] == more;
  }

  /** Any list of parameters is read back as it is. */
  lemma ParamsBack(params: seq<Param>)
    requires params != [] && CleanParams(params)
    ensures DispositionParams(ParamsText(params)) == params
  {
    hide ParamsOf;
    hide Split;
    TextsSplit("", params);
    assert "" + ParamsText(params) == ParamsText(params);
    TextsBack(params, {});
  }

  /** The first parameter of that name is number `i`. */
  ghost predicate FirstAt(params: seq<Param>, i: nat, key: string) {
    i < |params| && params[i].key == key && forall j :: 0 <= j < i ==> params[j].key != key
  }

  ghost predicate Has(params: seq<Param>, key: string) {
    exists i :: 0 <= i < |params| && params[i].key == key
  }

  lemma {:induction false} LookupFirst(params: seq<Param>, key: string)
    ensures Lookup(params, key).Some? <==> Has(params, key)
    ensures forall i: nat :: FirstAt(params, i, key) ==> Lookup(params, key) == Some(params[i].val)
    decreases |params|
  {
    if params != [] {
      var more := params[1..];
      LookupFirst(more, key);
      if i :| 0 <= i < |more| && more[i].key == key { assert params[i + 1].key == key; }
      if i :| 0 <= i < |params| && params[i].key == key { assert i == 0 || more[i - 1].key == key; }
      forall i: nat | FirstAt(params, i, key) ensures Lookup(params, key) == Some(params[i].val) {
        if i > 0 { assert FirstAt(more, i - 1, key); }
      }
    }
  }

  lemma {:induction false} FirstExists(params: seq<Param>, key: string) returns (i: nat)
    requires Has(params, key)
    ensures FirstAt(params, i, key)
    decreases |params|
  {
    if params[0].key == key {
      i := 0;
    } else {
      var k :| 0 <= k < |params| && params[k].key == key;
      assert params[1..][k - 1].key == key;
      var j := FirstExists(params[1..], key);
      i := j + 1;
    }
  }

  /** The value of an extended file name: UTF-8 in any case, two quotes, and something behind them. */
  predicate Extended(val: string) { |val| > 7 && Recased(val[..7], "UTF-8''") }

  /** The line is accepted exactly when there is a name and an extended file name, if there is one, is well-formed. Of
      parameters with the same name the first counts, an extended file name wins over a plain one, and others are
      ignored. */
  lemma DispositionMeans(params: seq<Param>, decode: string -> string)
    requires params != [] && CleanParams(params)
    ensures var effect := DispositionEffect(DispositionParams(ParamsText(params)), NO_FILE, decode);
            && (effect.ok <==> Has(params, "name") && forall i: nat :: FirstAt(params, i, "filename*") ==> Extended(params[i].val))
            && (effect.ok ==>
                  && (forall i: nat :: FirstAt(params, i, "name") ==> effect.file.name == params[i].val)
                  && (forall i: nat :: FirstAt(params, i, "filename*") ==> effect.file.filename == decode(params[i].val[7..]))
                  && (!Has(params, "filename*") ==>
                        && (forall i: nat :: FirstAt(params, i, "filename") ==> effect.file.filename == params[i].val)
                        && (!Has(params, "filename") ==> effect.file.filename == "")))
  {
    hide CleanParams;
    hide ParamsText;
    hide DispositionParams;
    ParamsBack(params);
    LookupFirst(params, "name");
    LookupFirst(params, "filename");
    LookupFirst(params, "filename*");
    hide Lookup;
    if Has(params, "filename*") {
      var i := FirstExists(params, "filename*");
      StartsIgnoringCaseIff(params[i].val, UTF8_QUOTES);
      assert forall j: nat :: FirstAt(params, j, "filename*") ==> j == i;
    }
    hide StartsIgnoringCase;
    hide Recased;
  }
}
