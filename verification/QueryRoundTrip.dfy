/** Printing parameters and parsing them into an empty collection. */
module QueryRoundTrip {
  import opened Text
  import opened Query

  lemma QueryOne(kv: Pair)
    requires Octets(kv.key) && Octets(kv.val)
    ensures QueryText([kv]) == PairText(kv)
  {
  }

  lemma QuerySnoc(p: seq<Pair>, kv: Pair)
    requires OctetPairs(p) && p != [] && Octets(kv.key) && Octets(kv.val)
    ensures QueryText(p + [kv]) == QueryText(p) + "&" + PairText(kv)
  {
    hide PairText;
    hide Octets;
    assert (p + [kv])[..|p|] == p;
  }

  lemma Bracket(a: string, b: string, c: string)
    ensures a + "&" + b + "&" + c == a + "&" + (b + "&" + c)
  {
  }

  lemma {:induction false} QueryCons(kv: Pair, p: seq<Pair>)
    requires OctetPairs(p) && p != [] && Octets(kv.key) && Octets(kv.val)
    ensures OctetPairs([kv] + p)
    ensures QueryText([kv] + p) == PairText(kv) + "&" + QueryText(p)
    decreases |p|
  {
    hide PairText;
    hide Octets;
    hide QueryText;
    var k := |p| - 1;
    var last := p[k];
    if k == 0 {
      assert p == [last];
      QueryOne(kv);
      QueryOne(last);
      QuerySnoc([kv], last);
    } else {
      var front := p[..k];
      assert p == front + [last] && [kv] + p == ([kv] + front) + [last];
      QueryCons(kv, front);
      QuerySnoc([kv] + front, last);
      QuerySnoc(front, last);
      Bracket(PairText(kv), QueryText(front), PairText(last));
    }
  }

  function PairTexts(p: seq<Pair>): (r: seq<string>)
    requires forall i :: 0 <= i < |p| ==> Octets(p[i].key) && Octets(p[i].val)
    ensures |r| == |p| && forall i :: 0 <= i < |p| ==> r[i] == PairText(p[i])
  {
    seq(|p|, i requires 0 <= i < |p| => PairText(p[i]))
  }

  lemma PairTextPlain(kv: Pair)
    requires Octets(kv.key) && Octets(kv.val)
    ensures var t := PairText(kv);
            && '&' !in t && Piece(t) == [t]
            && Divided(t, '=') == (Encode(kv.key, true), Encode(kv.val, true))
  {
    hide Encode;
    hide Trim;
    var t := PairText(kv);
    var key, val := Encode(kv.key, true), Encode(kv.val, true);
    EncodedPlain(kv.key, true);
    EncodedPlain(kv.val, true);
    assert t[|key|] == '=';
    forall i | 0 <= i < |t| ensures t[i] != '&' && t[i] != ' ' && t[i] != '\t' && (i < |key| ==> t[i] != '=') {
      assert t[i] == if i < |key| then key[i] else if i == |key| then '=' else val[i - |key| - 1];
    }
    TrimTrimmed(t);
    IndexOfIs(t, '=', |key|);
    assert t[..|key|] == key && t[|key| + 1..] == val;
  }

  lemma {:induction false} SplitQuery(p: seq<Pair>)
    requires OctetPairs(p)
    ensures Split(QueryText(p), '&') == PairTexts(p)
    decreases |p|
  {
    hide PairText;
    hide Split;
    hide Piece;
    hide Octets;
    hide QueryText;
    if p == [] {
      assert QueryText([]) == "" by { QueryNothing(); }
      SplitLast("", '&');
      assert Piece("") == [] by { PieceNothing(); }
    } else {
      PairTextPlain(p[0]);
      var t := PairText(p[0]);
      if |p| == 1 {
        assert p == [p[0]];
        QueryOne(p[0]);
        SplitLast(t, '&');
      } else {
        var rest := p[1..];
        assert p == [p[0]] + rest;
        QueryCons(p[0], rest);
        SplitCons(t, '&', QueryText(rest));
        assert t + "&" + QueryText(rest) == t + ['&'] + QueryText(rest);
        SplitQuery(rest);
        assert PairTexts(p) == [t] + PairTexts(rest);
      }
    }
  }

  lemma QueryNothing()
    ensures QueryText([]) == ""
  {
  }

  lemma PieceNothing()
    ensures Piece("") == []
  {
  }

  lemma PairBack(kv: Pair)
    requires Octets(kv.key) && Octets(kv.val)
    ensures Decode(Encode(kv.key, true), true) == kv.key && Decode(Encode(kv.val, true), true) == kv.val
    ensures Encode(kv.key, true) == "" <==> kv.key == ""
  {
    hide Decode;
    ComponentRoundTripIff(kv.key, true, true);
    ComponentRoundTripIff(kv.val, true, true);
  }

  /** Different pairs have different texts, so dropping repeated text drops repeated pairs only. */
  lemma PairTextInjective(a: Pair, b: Pair)
    requires Octets(a.key) && Octets(a.val) && Octets(b.key) && Octets(b.val)
    ensures PairText(a) == PairText(b) <==> a == b
  {
    hide Decode;
    hide Encode;
    hide PairText;
    PairTextPlain(a);
    PairTextPlain(b);
    PairBack(a);
    PairBack(b);
  }

  /** What is kept: the first of identical pairs, unless its key is empty. */
  function Kept(p: seq<Pair>): seq<Pair>
    decreases |p|
  {
    if p == [] then []
    else
      var k := |p| - 1;
      if p[k].key == "" || p[k] in p[..k] then Kept(p[..k]) else Kept(p[..k]) + [p[k]]
  }

  lemma {:induction false} KeptIsPart(p: seq<Pair>)
    ensures forall kv :: kv in Kept(p) <==> kv in p && kv.key != ""
    ensures forall i, j :: 0 <= i < j < |Kept(p)| ==> Kept(p)[i] != Kept(p)[j]
    decreases |p|
  {
    if p != [] {
      var k := |p| - 1;
      KeptIsPart(p[..k]);
      assert p == p[..k] + [p[k]];
    }
  }

  function Seen(p: seq<Pair>): (r: set<string>)
    requires forall i :: 0 <= i < |p| ==> Octets(p[i].key) && Octets(p[i].val)
  {
    set i | 0 <= i < |p| :: PairText(p[i])
  }

  lemma SeenStep(p: seq<Pair>, n: nat)
    requires OctetPairs(p) && n < |p|
    ensures OctetPairs(p[..n]) && OctetPairs(p[..n + 1])
    ensures Seen(p[..n + 1]) == Seen(p[..n]) + {PairText(p[n])}
    ensures PairText(p[n]) in Seen(p[..n]) <==> p[n] in p[..n]
  {
    hide PairText;
    hide Octets;
    assert p[..n + 1] == p[..n] + [p[n]];
    forall i | 0 <= i < n ensures PairText(p[i]) == PairText(p[n]) <==> p[i] == p[n] {
      PairTextInjective(p[i], p[n]);
    }
  }

  lemma KeptStep(p: seq<Pair>, n: nat)
    requires OctetPairs(p) && Ordered(p) && n < |p| && p[n] !in p[..n]
    ensures WithPiece(PairText(p[n]), Kept(p[..n])) == Kept(p[..n + 1])
  {
    hide PairText;
    hide Decode;
    hide Encode;
    hide Divided;
    hide Less;
    var kv, got := p[n], Kept(p[..n]);
    PairTextPlain(kv);
    PairBack(kv);
    assert p[..n + 1][..n] == p[..n];
    KeptIsPart(p[..n]);
    forall i | 0 <= i < |got| ensures !Less(kv.key, got[i].key) {
      assert got[i] in p[..n];
      var j :| 0 <= j < n && p[j] == got[i];
    }
    if kv.key != "" {
      var k := UpperBound(got, kv.key, 0);
      assert k == |got|;
      assert got[..k] + [kv] + got[k..] == got + [kv];
    }
  }

  lemma {:induction false} ParseBack(p: seq<Pair>, n: nat)
    requires OctetPairs(p) && Ordered(p) && n <= |p|
    ensures OctetPairs(p[n..]) && OctetPairs(p[..n])
    ensures ParsePairs(PairTexts(p[n..]), Seen(p[..n]), Kept(p[..n])) == Kept(p)
    decreases |p| - n
  {
    hide PairText;
    hide WithPiece;
    hide Kept;
    hide Ordered;
    hide Octets;
    hide Seen;
    if n == |p| {
      assert p[..n] == p;
    } else {
      var pieces := PairTexts(p[n..]);
      assert pieces[0] == PairText(p[n]) && pieces[1..] == PairTexts(p[n + 1..]);
      SeenStep(p, n);
      ParseBack(p, n + 1);
      if p[n] in p[..n] {
        assert p[..n + 1][..n] == p[..n];
        assert Kept(p[..n + 1]) == Kept(p[..n]) by { KeptAgain(p, n); }
        assert Seen(p[..n]) + {PairText(p[n])} == Seen(p[..n]);
      } else {
        KeptStep(p, n);
      }
    }
  }

  lemma KeptAgain(p: seq<Pair>, n: nat)
    requires n < |p| && p[n] in p[..n]
    ensures Kept(p[..n + 1]) == Kept(p[..n])
  {
    assert p[..n + 1][..n] == p[..n];
  }

  /** The round trip: identical pairs are merged and empty keys dropped, everything else comes back in its order. */
  lemma QueryRoundTrip(p: Params)
    requires OctetPairs(p) && Ordered(p)
    ensures ParseQuery(QueryText(p), []) == Kept(p)
  {
    hide Kept;
    hide Ordered;
    hide Split;
    hide QueryText;
    SplitQuery(p);
    ParseBack(p, 0);
    assert p[0..] == p && p[..0] == [];
    assert Kept([]) == [] by { KeptNothing(); }
    assert Seen([]) == {};
  }

  lemma KeptNothing()
    ensures Kept([]) == []
  {
  }

  /** The parameters come back unchanged exactly when none is given twice and no key is empty. */
  lemma UnchangedIff(p: Params)
    requires OctetPairs(p) && Ordered(p)
    ensures ParseQuery(QueryText(p), []) == p <==>
            (forall i :: 0 <= i < |p| ==> p[i].key != "") && (forall i, j :: 0 <= i < j < |p| ==> p[i] != p[j])
  {
    hide ParseQuery;
    hide QueryText;
    hide Kept;
    QueryRoundTrip(p);
    KeptIsPart(p);
    if (forall i :: 0 <= i < |p| ==> p[i].key != "") && (forall i, j :: 0 <= i < j < |p| ==> p[i] != p[j]) {
      KeptAll(p);
    }
  }

  lemma {:induction false} KeptAll(p: seq<Pair>)
    requires (forall i :: 0 <= i < |p| ==> p[i].key != "") && (forall i, j :: 0 <= i < j < |p| ==> p[i] != p[j])
    ensures Kept(p) == p
    decreases |p|
  {
    if p != [] {
      var k := |p| - 1;
      KeptAll(p[..k]);
      assert p == p[..k] + [p[k]];
    }
  }

  /** Whatever text is parsed, the result is in key order. */
  lemma ParseOrdered(text: string, params: Params)
    requires Ordered(params)
    ensures Ordered(ParseQuery(text, params))
  {
    PairsOrdered(Split(text, '&'), {}, params);
  }

  lemma {:induction false} PairsOrdered(pieces: seq<string>, seen: set<string>, params: Params)
    requires Ordered(params)
    ensures Ordered(ParsePairs(pieces, seen, params))
    decreases |pieces|
  {
    hide Ordered;
    hide Emplace;
    if pieces != [] {
      if pieces[0] in seen {
        PairsOrdered(pieces[1..], seen, params);
      } else {
        var kv := Divided(pieces[0], '=');
        EmplaceKeeps(params, Pair(Decode(kv.0, true), Decode(kv.1, true)));
        PairsOrdered(pieces[1..], seen + {pieces[0]}, WithPiece(pieces[0], params));
      }
    }
  }
}
