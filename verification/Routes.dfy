/** Path parameters: building a `PathParamsMatcher` from a pattern and matching paths with it. */
module Routes {
  import opened Text

  const MARKER: string := "/:"

  /** Static fragments, each ending where a value starts, and the names of the parameters between them. */
  datatype Matcher = Matcher(fragments: seq<string>, names: seq<string>)

  ghost predicate WellFormed(m: Matcher) {
    |m.names| <= |m.fragments| <= |m.names| + 1
  }

  /** The pattern ends with a parameter. */
  predicate FinalParam(m: Matcher) { |m.fragments| == |m.names| > 0 }

  predicate SlashFree(s: string) { '/' !in s }

  ghost predicate AllSlashFree(values: seq<string>) {
    forall i :: 0 <= i < |values| ==> SlashFree(values[i])
  }

  /** The text from fragment `i` on, with the values filled in. */
  function FillFrom(m: Matcher, i: nat, values: seq<string>): string
    requires |m.names| <= |m.fragments| <= |m.names| + 1 && i <= |m.fragments|
    requires |values| == if i < |m.names| then |m.names| - i else 0
    decreases |m.fragments| - i
  {
    if i == |m.fragments| then ""
    else if i >= |m.names| then m.fragments[i]
    else m.fragments[i] + values[0]
         + (if i + 1 < |m.fragments| then "/" + FillFrom(m, i + 1, values[1..]) else "")
  }

  function Fill(m: Matcher, values: seq<string>): string
    requires |m.names| <= |m.fragments| <= |m.names| + 1 && |values| == |m.names|
  {
    FillFrom(m, 0, values)
  }

  // ---------- Matching ----------

  /** `strncmp` over the length of both: a NUL in both at the same place ends the comparison. */
  predicate SameUpToNul(a: string, b: string)
    requires |a| == |b|
    decreases |a|
  {
    a == "" || (a[0] == b[0] && (a[0] == '\0' || SameUpToNul(a[1..], b[1..])))
  }

  /** The values captured from fragment `i` and position `pos` on; the position may be one past the end. */
  function MatchFrom(m: Matcher, path: string, i: nat, pos: nat): Option<seq<string>>
    requires i <= |m.fragments|
    decreases |m.fragments| - i
  {
    if i == |m.fragments| then (if pos >= |path| then Some([]) else None)
    else
      var f := m.fragments[i];
      if pos + |f| > |path| || !SameUpToNul(path[pos..pos + |f|], f) then None
      else if i >= |m.names| then MatchFrom(m, path, i + 1, pos + |f|)
      else
        var sep := IndexFrom(path, '/', pos + |f|);
        var more := MatchFrom(m, path, i + 1, sep + 1);
        if more.None? then None else Some([path[pos + |f|..sep]] + more.value)
  }

  /** A map to which the pairs are added from the left and in which the first value of a name stays. */
  function Bound(names: seq<string>, values: seq<string>): map<string, string>
    requires |names| == |values|
    decreases |names|
  {
    if names == [] then map[]
    else
      var k := |names| - 1;
      var before := Bound(names[..k], values[..k]);
      if names[k] in before then before else before[names[k] := values[k]]
  }

  lemma {:induction false} BoundFirst(names: seq<string>, values: seq<string>)
    requires |names| == |values|
    ensures forall name :: name in Bound(names, values) <==> name in names
    ensures forall k :: 0 <= k < |names| && (forall j :: 0 <= j < k ==> names[j] != names[k]) ==>
              Bound(names, values)[names[k]] == values[k]
    decreases |names|
  {
    if names != [] {
      var k := |names| - 1;
      var front := names[..k];
      assert names == front + [names[k]];
      BoundFirst(front, values[..k]);
      forall i | 0 <= i < |names| && forall j :: 0 <= j < i ==> names[j] != names[i]
        ensures Bound(names, values)[names[i]] == values[i]
      {
        if i < k { assert front[i] == names[i] && forall j :: 0 <= j < i ==> front[j] != front[i]; }
      }
    }
  }

  lemma BoundStep(names: seq<string>, got: seq<string>, value: string)
    requires |got| < |names|
    ensures Bound(names[..|got| + 1], got + [value]) ==
            var before := Bound(names[..|got|], got);
            if names[|got|] in before then before else before[names[|got|] := value]
  {
    assert names[..|got| + 1][..|got|] == names[..|got|] && (got + [value])[..|got|] == got;
  }

  /** As many values are captured as there are names left. */
  lemma {:induction false} CapturedLength(m: Matcher, path: string, i: nat, pos: nat)
    requires |m.names| <= |m.fragments| && i <= |m.fragments| && MatchFrom(m, path, i, pos).Some?
    ensures |MatchFrom(m, path, i, pos).value| == if i < |m.names| then |m.names| - i else 0
    decreases |m.fragments| - i
  {
    hide SameUpToNul;
    hide MatchFrom;
    MatchStep(m, path, i, pos);
    if i < |m.fragments| {
      var q := pos + |m.fragments[i]|;
      CapturedLength(m, path, i + 1, if i >= |m.names| then q else IndexFrom(path, '/', q) + 1);
    }
  }

  /** `match`: whether the path is accepted, and the parameters it stores; `emplace` keeps the value that a name has. */
  method Match(m: Matcher, path: string) returns (ok: bool, params: map<string, string>)
    requires |m.names| <= |m.fragments| <= |m.names| + 1
    ensures ok <==> MatchFrom(m, path, 0, 0).Some?
    ensures ok ==> |MatchFrom(m, path, 0, 0).value| == |m.names| && params == Bound(m.names, MatchFrom(m, path, 0, 0).value)
  {
    hide SameUpToNul;
    hide MatchFrom;
    hide Bound;
    params := map[];
    var pos: nat := 0;
    ghost var goal := MatchFrom(m, path, 0, 0);
    ghost var got: seq<string> := [];
    assert goal.Some? ==> [] + goal.value == goal.value;
    assert params == Bound([], []) by { NothingBound(); }
    for i := 0 to |m.fragments|
      invariant |got| == if i < |m.names| then i else |m.names|
      invariant goal.Some? == MatchFrom(m, path, i, pos).Some?
      invariant goal.Some? ==> goal.value == got + MatchFrom(m, path, i, pos).value
      invariant params == Bound(m.names[..|got|], got)
    {
      MatchStep(m, path, i, pos);
      var fragment := m.fragments[i];
      if pos + |fragment| > |path| { return false, params; }
      if !SameUpToNul(path[pos..pos + |fragment|], fragment) { return false, params; }
      pos := pos + |fragment|;
      if i >= |m.names| { continue; }
      var sep := FindSeparator(path, pos);
      var name, value := m.names[i], path[pos..sep];
      BoundStep(m.names, got, value);
      if name !in params { params := params[name := value]; }
      ghost var rest := MatchFrom(m, path, i + 1, sep + 1);
      if rest.Some? { AppendAssoc(got, [value], rest.value); }
      got := got + [value];
      pos := sep + 1;
    }
    MatchStep(m, path, |m.fragments|, pos);
    ok := pos >= |path|;
    assert m.names[..|m.names|] == m.names;
    if ok { assert got + [] == got; }
  }

  lemma NothingBound()
    ensures Bound([], []) == map[]
  {
  }

  method FindSeparator(path: string, pos: nat) returns (sep: nat)
    requires pos <= |path|
    ensures sep == IndexFrom(path, '/', pos)
  {
    sep := pos;
    while sep < |path| && path[sep] != '/'
      invariant pos <= sep <= |path|
      invariant forall j :: pos <= j < sep ==> path[j] != '/'
    {
      sep := sep + 1;
    }
  }

  lemma MatchStep(m: Matcher, path: string, i: nat, pos: nat)
    requires i <= |m.fragments|
    ensures i == |m.fragments| ==> MatchFrom(m, path, i, pos) == if pos >= |path| then Some([]) else None
    ensures i < |m.fragments| ==>
              var f := m.fragments[i];
              && (pos + |f| > |path| || !SameUpToNul(path[pos..pos + |f|], f) ==> MatchFrom(m, path, i, pos).None?)
              && (pos + |f| <= |path| && SameUpToNul(path[pos..pos + |f|], f) ==>
                    if i >= |m.names| then MatchFrom(m, path, i, pos) == MatchFrom(m, path, i + 1, pos + |f|)
                    else
                      var sep := IndexFrom(path, '/', pos + |f|);
                      var more := MatchFrom(m, path, i + 1, sep + 1);
                      MatchFrom(m, path, i, pos) == if more.None? then None else Some([path[pos + |f|..sep]] + more.value))
  {
    hide SameUpToNul;
  }

  // ---------- What is accepted ----------

  /** The path from `pos` on is the filled text, up to one slash after a final parameter. */
  ghost predicate Fits(m: Matcher, i: nat, rest: string, values: seq<string>)
    requires WellFormed(m) && i <= |m.fragments|
  {
    && |values| == (if i < |m.names| then |m.names| - i else 0)
    && AllSlashFree(values)
    && (rest == FillFrom(m, i, values) || (FinalParam(m) && i < |m.names| && rest == FillFrom(m, i, values) + "/"))
  }

  /** A NUL can only be the last octet, where it hides nothing from the comparison. */
  ghost predicate NulLast(f: string) {
    forall k :: 0 <= k < |f| - 1 ==> f[k] != '\0'
  }

  ghost predicate NulsLast(m: Matcher) {
    forall i :: 0 <= i < |m.fragments| ==> NulLast(m.fragments[i])
  }

  ghost predicate Compared(m: Matcher, path: string) { '\0' !in path || NulsLast(m) }

  /** Exactly which texts of the same length pass: equal ones, and those that are equal up to a NUL in both. */
  lemma {:induction false} SameIff(a: string, b: string)
    requires |a| == |b|
    ensures SameUpToNul(a, b) <==> a == b || exists k :: 0 <= k < |a| && a[k] == b[k] == '\0' && a[..k] == b[..k]
    decreases |a|
  {
    if a != "" {
      var c, d := a[1..], b[1..];
      SameIff(c, d);
      assert a == [a[0]] + c && b == [b[0]] + d;
      if a[0] == b[0] == '\0' {
        assert a[..0] == b[..0];
      } else if a[0] == b[0] {
        forall k | 0 <= k < |c| ensures c[..k] == d[..k] <==> a[..k + 1] == b[..k + 1] {
          assert a[..k + 1] == [a[0]] + c[..k] && b[..k + 1] == [b[0]] + d[..k];
        }
        if k :| 0 <= k < |c| && c[k] == d[k] == '\0' && c[..k] == d[..k] {
          assert a[k + 1] == b[k + 1] == '\0' && a[..k + 1] == b[..k + 1];
        }
        if k :| 0 <= k < |a| && a[k] == b[k] == '\0' && a[..k] == b[..k] {
          assert c[k - 1] == d[k - 1] == '\0' && c[..k - 1] == d[..k - 1];
        }
      } else {
        assert forall k :: 0 < k <= |a| ==> a[..k][0] != b[..k][0];
      }
    }
  }

  lemma FragmentFits(m: Matcher, path: string, i: nat, pos: nat)
    requires i < |m.fragments| && pos + |m.fragments[i]| <= |path| && m.fragments[i] <= path[pos..]
    ensures SameUpToNul(path[pos..pos + |m.fragments[i]|], m.fragments[i])
  {
    var f := m.fragments[i];
    assert path[pos..pos + |f|] == path[pos..][..|f|] == f;
    SameIff(f, f);
  }

  lemma FragmentTest(m: Matcher, path: string, i: nat, pos: nat)
    requires i < |m.fragments| && pos + |m.fragments[i]| <= |path| && Compared(m, path)
    ensures var f := m.fragments[i]; SameUpToNul(path[pos..pos + |f|], f) <==> f <= path[pos..]
  {
    var f := m.fragments[i];
    var here := path[pos..pos + |f|];
    SameIff(here, f);
    if k :| 0 <= k < |f| && here[k] == f[k] == '\0' && here[..k] == f[..k] {
      assert here[k] in path && NulLast(f) && k == |f| - 1;
      assert here == here[..k] + [here[k]] && f == f[..k] + [f[k]];
    }
    assert here == path[pos..][..|f|];
  }

  lemma IndexFromIs(s: string, c: char, from: nat, k: nat)
    requires from <= k <= |s| && (k < |s| ==> s[k] == c)
    requires forall j :: from <= j < k ==> s[j] != c
    ensures IndexFrom(s, c, from) == k
  {
  }

  lemma SeparatorOf(path: string, q: nat, value: string, rest: string)
    requires q <= |path| && path[q..] == value + rest && SlashFree(value) && (rest != "" ==> rest[0] == '/')
    ensures IndexFrom(path, '/', q) == q + |value| && path[q..q + |value|] == value
    ensures path[q + |value|..] == rest
  {
    var after := path[q..];
    assert forall j :: 0 <= j < |value| ==> path[q + j] == after[j] == value[j];
    assert rest != "" ==> path[q + |value|] == after[|value|] == '/';
    assert path[q..q + |value|] == after[..|value|] == value;
    assert path[q + |value|..] == after[|value|..] == rest;
    IndexFromIs(path, '/', q, q + |value|);
  }

  lemma CapturedSlashFree(path: string, q: nat)
    requires q <= |path|
    ensures var sep := IndexFrom(path, '/', q);
            SlashFree(path[q..sep]) && path[q..] == path[q..sep] + path[sep..] && (sep < |path| ==> path[sep..] == "/" + path[sep + 1..])
  {
    var sep := IndexFrom(path, '/', q);
    hide IndexFrom;
    var v := path[q..sep];
    assert forall j :: 0 <= j < |v| ==> v[j] == path[q + j];
    if sep < |path| { assert path[sep..] == [path[sep]] + path[sep + 1..]; }
  }

  lemma FillStep(m: Matcher, i: nat, values: seq<string>)
    requires WellFormed(m) && i < |m.names| && |values| == |m.names| - i
    ensures FillFrom(m, i, values) ==
            m.fragments[i] + (values[0] + (if i + 1 < |m.fragments| then "/" + FillFrom(m, i + 1, values[1..]) else ""))
  {
    var more := if i + 1 < |m.fragments| then "/" + FillFrom(m, i + 1, values[1..]) else "";
    AppendAssoc(m.fragments[i], values[0], more);
  }

  /** What is accepted fits the pattern, with the captured values. */
  lemma {:induction false} MatchFits(m: Matcher, path: string, i: nat, pos: nat)
    requires WellFormed(m) && Compared(m, path) && i <= |m.fragments| && pos <= |path|
    requires MatchFrom(m, path, i, pos).Some?
    ensures Fits(m, i, path[pos..], MatchFrom(m, path, i, pos).value)
    decreases |m.fragments| - i
  {
    hide SameUpToNul;
    hide MatchFrom;
    hide Compared;
    hide IndexFrom;
    MatchStep(m, path, i, pos);
    if i < |m.fragments| {
      var f := m.fragments[i];
      var q := pos + |f|;
      FragmentTest(m, path, i, pos);
      assert path[pos..] == f + path[q..];
      if i >= |m.names| {
        MatchFits(m, path, i + 1, q);
        assert f + "" == f;
      } else {
        CapturedFits(m, path, i, pos);
      }
    }
  }

  lemma {:induction false} CapturedFits(m: Matcher, path: string, i: nat, pos: nat)
    requires WellFormed(m) && Compared(m, path) && i < |m.names| && pos + |m.fragments[i]| <= |path|
    requires path[pos..] == m.fragments[i] + path[pos + |m.fragments[i]|..]
    requires MatchFrom(m, path, i, pos).Some?
    ensures Fits(m, i, path[pos..], MatchFrom(m, path, i, pos).value)
    decreases |m.fragments| - i, 0
  {
    hide SameUpToNul;
    hide MatchFrom;
    hide Compared;
    hide IndexFrom;
    hide Fits;
    var f := m.fragments[i];
    var q := pos + |f|;
    MatchStep(m, path, i, pos);
    var sep := IndexFrom(path, '/', q);
    var v := path[q..sep];
    var more := MatchFrom(m, path, i + 1, sep + 1).value;
    CapturedSlashFree(path, q);
    MatchStep(m, path, i + 1, sep + 1);
    if i + 1 < |m.fragments| {
      assert sep < |path|;
      MatchFits(m, path, i + 1, sep + 1);
      FitsLonger(m, i, v, path[sep + 1..], more);
      assert f + (v + ("/" + path[sep + 1..])) == path[pos..];
    } else {
      assert path[sep..] == "" || path[sep..] == "/";
      FitsLast(m, i, v, path[sep..]);
      assert f + (v + path[sep..]) == path[pos..];
    }
  }

  lemma FitsLonger(m: Matcher, i: nat, v: string, rest: string, more: seq<string>)
    requires WellFormed(m) && i < |m.names| && i + 1 < |m.fragments| && SlashFree(v) && Fits(m, i + 1, rest, more)
    ensures Fits(m, i, m.fragments[i] + (v + ("/" + rest)), [v] + more)
  {
    var values := [v] + more;
    assert values[1..] == more;
    FillStep(m, i, values);
    LongerFits(m.fragments[i], v, rest, FillFrom(m, i + 1, more));
  }

  lemma FitsLast(m: Matcher, i: nat, v: string, slash: string)
    requires WellFormed(m) && i + 1 == |m.names| == |m.fragments| && SlashFree(v) && (slash == "" || slash == "/")
    ensures Fits(m, i, m.fragments[i] + (v + slash), [v] + [])
  {
    assert [v] + [] == [v];
    FillStep(m, i, [v]);
    assert v + "" == v && m.fragments[i] + (v + "/") == m.fragments[i] + v + "/";
  }

  lemma LongerFits(f: string, v: string, rest: string, fill: string)
    ensures rest == fill + "/" ==> f + (v + ("/" + rest)) == f + (v + ("/" + fill)) + "/"
  {
    if rest == fill + "/" { assert "/" + rest == "/" + fill + "/"; }
  }

  /** What follows the first value of a filled text. */
  lemma FitsTail(m: Matcher, i: nat, rest: string, values: seq<string>) returns (tail: string)
    requires WellFormed(m) && i < |m.names| && Fits(m, i, rest, values)
    ensures rest == m.fragments[i] + (values[0] + tail)
    ensures i + 1 < |m.fragments| ==> tail != "" && tail[0] == '/' && Fits(m, i + 1, tail[1..], values[1..])
    ensures i + 1 == |m.fragments| ==> tail == "" || tail == "/"
  {
    FillStep(m, i, values);
    var fill := if i + 1 < |m.fragments| then FillFrom(m, i + 1, values[1..]) else "";
    var more := if i + 1 < |m.fragments| then "/" + fill else "";
    hide FillFrom;
    FilledRest(m.fragments[i], values[0], more, "/");
    if rest == FillFrom(m, i, values) {
      tail := more;
      assert i + 1 < |m.fragments| ==> tail[1..] == fill;
    } else {
      tail := more + "/";
      assert i + 1 < |m.fragments| ==> tail[1..] == fill + "/";
    }
  }

  lemma FilledRest(f: string, v: string, more: string, slash: string)
    ensures f + (v + more) + slash == f + (v + (more + slash))
    ensures "" + slash == slash
  {
  }

  lemma DropTwo(path: string, pos: nat, f: string, v: string, tail: string)
    requires pos <= |path| && path[pos..] == f + (v + tail)
    ensures pos + |f| + |v| <= |path| && f <= path[pos..]
    ensures path[pos + |f|..] == v + tail
    ensures pos + |f| + |v| + |tail| == |path|
    ensures tail != "" ==> path[pos + |f| + |v| + 1..] == tail[1..]
  {
    var rest := path[pos..];
    assert rest[|f|..] == v + tail && path[pos + |f|..] == rest[|f|..];
    if tail != "" {
      assert (v + tail)[|v| + 1..] == tail[1..];
      assert path[pos + |f| + |v| + 1..] == path[pos + |f|..][|v| + 1..];
    }
  }

  lemma FirstCaptured(m: Matcher, path: string, i: nat, pos: nat, v: string, tail: string)
    requires i < |m.names| <= |m.fragments| && pos <= |path|
    requires path[pos..] == m.fragments[i] + (v + tail) && SlashFree(v) && (tail != "" ==> tail[0] == '/')
    ensures var more := MatchFrom(m, path, i + 1, pos + |m.fragments[i]| + |v| + 1);
            MatchFrom(m, path, i, pos) == if more.None? then None else Some([v] + more.value)
  {
    hide SameUpToNul;
    hide MatchFrom;
    hide IndexFrom;
    var f := m.fragments[i];
    DropTwo(path, pos, f, v, tail);
    FragmentFits(m, path, i, pos);
    SeparatorOf(path, pos + |f|, v, tail);
    MatchStep(m, path, i, pos);
  }

  lemma TailMatched(m: Matcher, path: string, i: nat, pos: nat)
    requires |m.names| <= i && i + 1 == |m.fragments| && pos <= |path|
    requires path[pos..] == m.fragments[i]
    ensures MatchFrom(m, path, i, pos) == Some([])
  {
    hide SameUpToNul;
    hide MatchFrom;
    FragmentFits(m, path, i, pos);
    MatchStep(m, path, i, pos);
    MatchStep(m, path, i + 1, pos + |m.fragments[i]|);
  }

  /** What fits is accepted, and captured as it was filled in. */
  lemma {:induction false} FitsMatch(m: Matcher, path: string, i: nat, pos: nat, values: seq<string>)
    requires WellFormed(m) && i <= |m.fragments| && pos <= |path|
    requires Fits(m, i, path[pos..], values)
    ensures MatchFrom(m, path, i, pos) == Some(values)
    decreases |m.fragments| - i
  {
    hide MatchFrom;
    if i == |m.fragments| {
      MatchStep(m, path, i, pos);
    } else if i >= |m.names| {
      TailMatched(m, path, i, pos);
    } else {
      var f, v := m.fragments[i], values[0];
      var tail := FitsTail(m, i, path[pos..], values);
      SlashFreeFirst(m, i, path[pos..], values);
      hide Fits;
      FirstCaptured(m, path, i, pos, v, tail);
      DropTwo(path, pos, f, v, tail);
      var next := pos + |f| + |v| + 1;
      assert values == [v] + values[1..];
      if i + 1 < |m.fragments| {
        FitsMatch(m, path, i + 1, next, values[1..]);
      } else {
        MatchStep(m, path, i + 1, next);
      }
    }
  }

  lemma SlashFreeFirst(m: Matcher, i: nat, rest: string, values: seq<string>)
    requires WellFormed(m) && i < |m.names| && Fits(m, i, rest, values)
    ensures SlashFree(values[0]) && (i + 1 == |m.fragments| ==> |values| == 1)
  {
  }

  /** A path is accepted exactly when it is the filled pattern, up to one slash after a final parameter, and then the
      values captured are those filled in. */
  lemma MatchIff(m: Matcher, path: string, values: seq<string>)
    requires WellFormed(m) && Compared(m, path)
    ensures MatchFrom(m, path, 0, 0) == Some(values) <==> Fits(m, 0, path, values)
  {
    hide MatchFrom;
    assert path[0..] == path;
    if MatchFrom(m, path, 0, 0).Some? { MatchFits(m, path, 0, 0); }
    if Fits(m, 0, path, values) { FitsMatch(m, path, 0, 0, values); }
  }
}
