/** The constructor of `PathParamsMatcher`: what it makes of a pattern. */
module RoutePatterns {
  import opened Text
  import opened Routes

  function Colons(names: seq<string>): (r: seq<string>)
    ensures |r| == |names| && forall i :: 0 <= i < |names| ==> r[i] == ":" + names[i]
  {
    seq(|names|, i requires 0 <= i < |names| => ":" + names[i])
  }

  /** A parameter of this name starts at `p`: the marker, the name, and a slash or the end. */
  ghost predicate ParamAt(pattern: string, p: int, name: string) {
    && OccursAt(pattern, MARKER, p) && SlashFree(name)
    && p + 2 + |name| <= |pattern| && pattern[p + 2..p + 2 + |name|] == name
    && (p + 2 + |name| < |pattern| ==> pattern[p + 2 + |name|] == '/')
  }

  ghost predicate Increasing(starts: seq<int>, below: int) {
    && (forall i, j :: 0 <= i < j < |starts| ==> starts[i] < starts[j])
    && (forall i :: 0 <= i < |starts| ==> starts[i] < below)
  }

  /** The markers of the pattern before `below` are exactly at `starts`, and the names are those of the parameters. */
  ghost predicate Markers(pattern: string, names: seq<string>, starts: seq<int>, below: int) {
    && |starts| == |names| && Increasing(starts, below)
    && (forall i :: 0 <= i < |starts| ==> ParamAt(pattern, starts[i], names[i]))
    && (forall p :: 0 <= p < below && OccursAt(pattern, MARKER, p) ==> p in starts)
  }

  /** Where fragment `i` begins: behind the parameter before it and the slash that ends that one. */
  function FragmentStart(names: seq<string>, starts: seq<int>, i: nat): int
    requires i <= |names| == |starts|
  {
    if i == 0 then 0 else starts[i - 1] + 2 + |names[i - 1]| + 1
  }

  ghost predicate Slice(f: string, pattern: string, from: int, to: int) {
    0 <= from <= to <= |pattern| && f == pattern[from..to]
  }

  /** The fragment before parameter `i` runs up to the slash of its marker. */
  ghost predicate CutAt(pattern: string, m: Matcher, starts: seq<int>, i: nat)
    requires i < |starts| == |m.names| <= |m.fragments|
  {
    Slice(m.fragments[i], pattern, FragmentStart(m.names, starts, i), starts[i] + 1)
  }

  ghost predicate CutAtMarkers(pattern: string, m: Matcher, starts: seq<int>) {
    && |starts| == |m.names| <= |m.fragments|
    && forall i :: 0 <= i < |starts| ==> CutAt(pattern, m, starts, i)
  }

  /** What follows the last parameter is a fragment of its own, if there is anything. */
  ghost predicate CutBehind(pattern: string, m: Matcher, starts: seq<int>)
    requires |starts| == |m.names| <= |m.fragments|
  {
    var end := FragmentStart(m.names, starts, |starts|);
    if end < |pattern| then |m.fragments| == |m.names| + 1 && Slice(m.fragments[|m.names|], pattern, end, |pattern|)
    else |m.fragments| == |m.names|
  }

  /** The matcher is the pattern cut at its parameters; a slash after a final parameter is dropped. */
  ghost predicate Compiles(pattern: string, m: Matcher, starts: seq<int>) {
    && WellFormed(m) && AllSlashFree(m.names)
    && Markers(pattern, m.names, starts, |pattern|)
    && CutAtMarkers(pattern, m, starts) && CutBehind(pattern, m, starts)
    && (pattern == Fill(m, Colons(m.names)) || (FinalParam(m) && pattern == Fill(m, Colons(m.names)) + "/"))
  }

  // ---------- Adding to a matcher ----------

  /** `FillStep` in the three shapes that occur: followed by more, the last parameter, and a tail. */
  lemma FillGo(m: Matcher, i: nat, values: seq<string>)
    requires WellFormed(m) && i < |m.names| && i + 1 < |m.fragments| && |values| == |m.names| - i
    ensures FillFrom(m, i, values) == m.fragments[i] + (values[0] + ("/" + FillFrom(m, i + 1, values[1..])))
  {
    FillStep(m, i, values);
  }

  lemma FillLast(m: Matcher, i: nat, v: string)
    requires i + 1 == |m.names| == |m.fragments|
    ensures FillFrom(m, i, [v]) == m.fragments[i] + v
  {
    FillStep(m, i, [v]);
    assert v + "" == v;
  }

  lemma FillEnd(m: Matcher)
    requires |m.fragments| == |m.names| + 1
    ensures FillFrom(m, |m.names|, []) == m.fragments[|m.names|]
  {
  }

  lemma Regroup(f: string, v: string, fill: string, rest: string)
    ensures f + (v + ("/" + (fill + rest))) == f + (v + ("/" + fill)) + rest
  {
    assert "/" + (fill + rest) == "/" + fill + rest;
  }

  lemma {:induction false} FillMore(m: Matcher, f: string, name: string, v: string, i: nat, values: seq<string>)
    requires |m.fragments| == |m.names| && i < |m.names| && |values| == |m.names| - i
    ensures var more := Matcher(m.fragments + [f], m.names + [name]);
            FillFrom(more, i, values + [v]) == FillFrom(m, i, values) + ("/" + (f + v))
    decreases |m.names| - i
  {
    hide FillFrom;
    var more := Matcher(m.fragments + [f], m.names + [name]);
    var all := values + [v];
    FillGo(more, i, all);
    if i + 1 < |m.names| {
      assert all[1..] == values[1..] + [v];
      FillMore(m, f, name, v, i + 1, values[1..]);
      FillGo(m, i, values);
      Regroup(m.fragments[i], values[0], FillFrom(m, i + 1, values[1..]), "/" + (f + v));
    } else {
      assert all[1..] == [v] && values == [values[0]];
      FillLast(more, i + 1, v);
      FillLast(m, i, values[0]);
      AppendAssoc(m.fragments[i], values[0], "/" + (f + v));
    }
  }

  lemma {:induction false} FillTail(m: Matcher, tail: string, i: nat, values: seq<string>)
    requires |m.fragments| == |m.names| && i < |m.names| && |values| == |m.names| - i
    ensures FillFrom(Matcher(m.fragments + [tail], m.names), i, values) == FillFrom(m, i, values) + ("/" + tail)
    decreases |m.names| - i
  {
    hide FillFrom;
    var more := Matcher(m.fragments + [tail], m.names);
    FillGo(more, i, values);
    if i + 1 < |m.names| {
      FillTail(m, tail, i + 1, values[1..]);
      FillGo(m, i, values);
      Regroup(m.fragments[i], values[0], FillFrom(m, i + 1, values[1..]), "/" + tail);
    } else {
      assert values == [values[0]] && values[1..] == [];
      FillEnd(more);
      FillLast(m, i, values[0]);
      AppendAssoc(m.fragments[i], values[0], "/" + tail);
    }
  }

  // ---------- The loop of the constructor ----------

  /** What has been cut off when the last parameter ended before `lastParamEnd`. */
  ghost predicate Building(pattern: string, m: Matcher, starts: seq<int>, lastParamEnd: nat) {
    && |m.fragments| == |m.names| && AllSlashFree(m.names)
    && (lastParamEnd == 0 <==> |m.names| == 0)
    && lastParamEnd <= |pattern| + 1
    && (lastParamEnd > 0 ==> pattern[..lastParamEnd - 1] == Fill(m, Colons(m.names)))
    && (0 < lastParamEnd <= |pattern| ==> pattern[lastParamEnd - 1] == '/')
    && Markers(pattern, m.names, starts, if lastParamEnd == 0 then 0 else lastParamEnd - 1)
  }

  /** The slash before a parameter closes the fragment and, when another parameter ends there, separates the two. */
  lemma FilledSoFar(pattern: string, m: Matcher, starts: seq<int>, end: nat, f: string, name: string, sep: nat, at: nat)
    requires Building(pattern, m, starts, end)
    requires end <= at + 1 && at + 2 <= sep <= |pattern|
    requires f == pattern[end..at + 1] && name == pattern[at + 2..sep] && pattern[at + 1] == ':'
    ensures var more := Matcher(m.fragments + [f], m.names + [name]);
            Fill(more, Colons(more.names)) == pattern[..sep]
  {
    hide FillFrom;
    hide Markers;
    var more := Matcher(m.fragments + [f], m.names + [name]);
    var v := ":" + name;
    assert Colons(more.names) == Colons(m.names) + [v];
    CutParameter(pattern, end, at, sep);
    if end == 0 {
      assert more.fragments == [f] && Colons(more.names) == [v];
      FillLast(more, 0, v);
    } else {
      FillMore(m, f, name, v, 0, Colons(m.names));
      CutSlash(pattern, end, sep);
    }
  }

  lemma CutParameter(pattern: string, end: nat, at: nat, sep: nat)
    requires end <= at + 1 && at + 2 <= sep <= |pattern| && pattern[at + 1] == ':'
    ensures pattern[end..at + 1] + (":" + pattern[at + 2..sep]) == pattern[end..sep]
    ensures end == 0 ==> pattern[end..sep] == pattern[..sep]
  {
  }

  lemma CutSlash(pattern: string, end: nat, sep: nat)
    requires 0 < end <= sep <= |pattern| && pattern[end - 1] == '/'
    ensures pattern[..end - 1] + ("/" + pattern[end..sep]) == pattern[..sep]
  {
  }

  lemma MarkersMore(pattern: string, names: seq<string>, starts: seq<int>, from: nat, at: nat, sep: nat)
    requires Markers(pattern, names, starts, from) && from <= at && at + 2 <= sep <= |pattern|
    requires OccursAt(pattern, MARKER, at)
    requires forall p :: from <= p < at ==> !OccursAt(pattern, MARKER, p)
    requires forall p :: at + 2 <= p < sep ==> pattern[p] != '/'
    requires sep < |pattern| ==> pattern[sep] == '/'
    ensures ParamAt(pattern, at, pattern[at + 2..sep])
    ensures Markers(pattern, names + [pattern[at + 2..sep]], starts + [at], sep)
  {
    var name := pattern[at + 2..sep];
    assert forall i :: 0 <= i < |name| ==> name[i] == pattern[at + 2 + i];
    assert ParamAt(pattern, at, name);
    var all := starts + [at];
    assert all[|starts|] == at;
    forall p | 0 <= p < sep && OccursAt(pattern, MARKER, p) ensures p in all {
      OccursStart(pattern, MARKER, p);
      MarkerColon(pattern, at);
      if p < from {
        assert p in starts;
        var i :| 0 <= i < |starts| && starts[i] == p;
        assert all[i] == p;
      }
    }
  }

  lemma MarkerColon(pattern: string, at: nat)
    requires OccursAt(pattern, MARKER, at)
    ensures at + 2 <= |pattern| && pattern[at] == '/' && pattern[at + 1] == ':'
  {
    var here := pattern[at..at + 2];
    assert here[0] == pattern[at] && here[1] == pattern[at + 1];
  }

  /** One turn of the loop. */
  lemma TurnKeeps(pattern: string, m: Matcher, starts: seq<int>, end: nat, at: nat, sep: nat)
    requires Building(pattern, m, starts, end)
    requires var from := if end == 0 then 0 else end - 1;
             && from <= at && at + 2 <= sep <= |pattern| && OccursAt(pattern, MARKER, at)
             && (forall p :: from <= p < at ==> !OccursAt(pattern, MARKER, p))
    requires forall p :: at + 2 <= p < sep ==> pattern[p] != '/'
    requires sep < |pattern| ==> pattern[sep] == '/'
    ensures end <= at + 1
    ensures Building(pattern, Matcher(m.fragments + [pattern[end..at + 1]], m.names + [pattern[at + 2..sep]]), starts + [at], sep + 1)
  {
    hide Fill;
    hide ParamAt;
    hide Increasing;
    MarkerColon(pattern, at);
    MarkersMore(pattern, m.names, starts, if end == 0 then 0 else end - 1, at, sep);
    FilledSoFar(pattern, m, starts, end, pattern[end..at + 1], pattern[at + 2..sep], sep, at);
    hide Markers;
    var more := Matcher(m.fragments + [pattern[end..at + 1]], m.names + [pattern[at + 2..sep]]);
    assert SlashFree(pattern[at + 2..sep]) by { NoSlash(pattern, at + 2, sep); }
    assert AllSlashFree(more.names);
  }

  lemma NoSlash(pattern: string, a: nat, b: nat)
    requires a <= b <= |pattern| && forall p :: a <= p < b ==> pattern[p] != '/'
    ensures SlashFree(pattern[a..b])
  {
  }

  lemma CutKept(pattern: string, m: Matcher, starts: seq<int>, more: Matcher, all: seq<int>, i: nat)
    requires i < |starts| == |m.names| <= |m.fragments| && |all| == |more.names| <= |more.fragments|
    requires starts <= all && m.names <= more.names && m.fragments <= more.fragments
    ensures CutAt(pattern, more, all, i) <==> CutAt(pattern, m, starts, i)
  {
    hide Slice;
    assert all[i] == starts[i] && more.fragments[i] == m.fragments[i];
    if i > 0 { assert all[i - 1] == starts[i - 1] && more.names[i - 1] == m.names[i - 1]; }
  }

  /** The same turn cuts one more fragment off and leaves those before it as they are. */
  lemma TurnCuts(pattern: string, m: Matcher, starts: seq<int>, end: nat, at: nat, sep: nat)
    requires |m.fragments| == |m.names| && CutAtMarkers(pattern, m, starts) && end == FragmentStart(m.names, starts, |starts|)
    requires end <= at + 1 && at + 2 <= sep <= |pattern|
    ensures var more := Matcher(m.fragments + [pattern[end..at + 1]], m.names + [pattern[at + 2..sep]]);
            CutAtMarkers(pattern, more, starts + [at]) && sep + 1 == FragmentStart(more.names, starts + [at], |starts| + 1)
  {
    var f, name, n := pattern[end..at + 1], pattern[at + 2..sep], |starts|;
    var more := Matcher(m.fragments + [f], m.names + [name]);
    var all := starts + [at];
    assert |name| == sep - at - 2 && Slice(f, pattern, end, at + 1);
    hide Slice;
    assert all[n] == at && more.names[n] == name && more.fragments[n] == f;
    if n > 0 { assert all[n - 1] == starts[n - 1] && more.names[n - 1] == m.names[n - 1]; }
    assert CutAt(pattern, more, all, n);
    hide CutAt;
    hide FragmentStart;
    forall i | 0 <= i < |all| ensures CutAt(pattern, more, all, i) {
      if i < n { CutKept(pattern, m, starts, more, all, i); }
    }
  }

  lemma TailCut(pattern: string, m: Matcher, starts: seq<int>, end: nat)
    requires |m.fragments| == |m.names| && CutAtMarkers(pattern, m, starts) && end == FragmentStart(m.names, starts, |starts|)
    ensures var all := if end < |pattern| then m.(fragments := m.fragments + [pattern[end..]]) else m;
            CutAtMarkers(pattern, all, starts) && CutBehind(pattern, all, starts)
  {
    if end < |pattern| {
      var all := m.(fragments := m.fragments + [pattern[end..]]);
      assert Slice(pattern[end..], pattern, end, |pattern|) by { assert pattern[end..|pattern|] == pattern[end..]; }
      hide CutAt;
      hide Slice;
      hide FragmentStart;
      forall i | 0 <= i < |starts| ensures CutAt(pattern, all, starts, i) { CutKept(pattern, m, starts, all, starts, i); }
    }
  }

  /** What is left behind the last parameter. */
  lemma Finished(pattern: string, m: Matcher, starts: seq<int>, end: nat)
    requires Building(pattern, m, starts, end)
    requires CutAtMarkers(pattern, m, starts) && end == FragmentStart(m.names, starts, |starts|)
    requires forall p :: (if end == 0 then 0 else end - 1) <= p < |pattern| ==> !OccursAt(pattern, MARKER, p)
    ensures Compiles(pattern, if end < |pattern| then m.(fragments := m.fragments + [pattern[end..]]) else m, starts)
  {
    hide ParamAt;
    AllMarkers(pattern, m.names, starts, if end == 0 then 0 else end - 1);
    hide Markers;
    TailCut(pattern, m, starts, end);
    hide CutAtMarkers;
    hide CutBehind;
    hide FragmentStart;
    if end < |pattern| {
      var tail := pattern[end..];
      var more := Matcher(m.fragments + [tail], m.names);
      if end == 0 {
        assert tail == pattern && more.fragments == [pattern];
      } else {
        FillTail(m, tail, 0, Colons(m.names));
        CutSlash(pattern, end, |pattern|);
        assert pattern[end..|pattern|] == tail && pattern[..|pattern|] == pattern;
      }
    } else if end == |pattern| {
      if end > 0 { assert pattern == pattern[..end - 1] + pattern[end - 1..end] && pattern[end - 1..end] == "/"; }
    } else {
      assert pattern[..end - 1] == pattern;
    }
  }

  lemma AllMarkers(pattern: string, names: seq<string>, starts: seq<int>, from: nat)
    requires Markers(pattern, names, starts, from) && from <= |pattern|
    requires forall p :: from <= p < |pattern| ==> !OccursAt(pattern, MARKER, p)
    ensures Markers(pattern, names, starts, |pattern|)
  {
    hide ParamAt;
    hide OccursAt;
  }

  /** The constructor. It looks every name up in a set in order to refuse a repeated one, but nothing is ever put into
      that set, so no pattern is refused. */
  method NewMatcher(pattern: string) returns (m: Matcher)
    ensures exists starts :: Compiles(pattern, m, starts)
  {
    hide Building;
    hide Compiles;
    hide OccursAt;
    hide Slice;
    m := Matcher([], []);
    var end: nat := 0;
    var nameSet: set<string> := {};
    ghost var starts: seq<int> := [];
    NothingBuilt(pattern);
    while true
      invariant Building(pattern, m, starts, end) && end <= |pattern| + 1
      invariant |m.fragments| == |m.names| && CutAtMarkers(pattern, m, starts) && end == FragmentStart(m.names, starts, |starts|)
      invariant nameSet == {}
      decreases |pattern| + 1 - end
    {
      var from := if end == 0 then 0 else end - 1;
      var at := FindFrom(pattern, MARKER, from);
      if at == |pattern| { break; }
      MarkerColon(pattern, at);
      var sep := FindSeparator(pattern, at + 2);
      var name := pattern[at + 2..sep];
      if name in nameSet { assert false; }
      TurnKeeps(pattern, m, starts, end, at, sep);
      TurnCuts(pattern, m, starts, end, at, sep);
      m := Matcher(m.fragments + [pattern[end..at + 1]], m.names + [name]);
      starts := starts + [at];
      end := sep + 1;
    }
    Finished(pattern, m, starts, end);
    if end < |pattern| { m := m.(fragments := m.fragments + [pattern[end..]]); }
  }

  lemma NothingBuilt(pattern: string)
    ensures Building(pattern, Matcher([], []), [], 0)
  {
  }

  lemma NameEnds(pattern: string, p: int, name: string)
    requires ParamAt(pattern, p, name)
    ensures 0 <= p && p + 2 <= |pattern| && name == pattern[p + 2..IndexFrom(pattern, '/', p + 2)]
  {
    var here := pattern[p + 2..p + 2 + |name|];
    assert forall j :: 0 <= j < |name| ==> pattern[p + 2 + j] == here[j];
    IndexFromIs(pattern, '/', p + 2, p + 2 + |name|);
  }

  lemma NameListed(pattern: string, names: seq<string>, starts: seq<int>, p: int, name: string)
    requires Markers(pattern, names, starts, |pattern|) && ParamAt(pattern, p, name)
    ensures exists i :: 0 <= i < |starts| && starts[i] == p && names[i] == name
  {
    assert OccursAt(pattern, MARKER, p);
    var i :| 0 <= i < |starts| && starts[i] == p;
    NameEnds(pattern, p, name);
    NameEnds(pattern, p, names[i]);
  }

  // ---------- The matcher of a pattern ----------

  /** Up to `i` the two agree; the next element of `a` is in `b`, but not among those. */
  lemma NextAtMost(a: seq<int>, b: seq<int>, below: int, i: nat)
    requires Increasing(a, below) && Increasing(b, below) && i <= |b| && i < |a|
    requires a[..i] == b[..i] && a[i] in b
    ensures i < |b| && b[i] <= a[i]
  {
    assert forall j :: 0 <= j < i ==> a[..i][j] == b[..i][j];
    assert forall j :: 0 <= j < i ==> a[j] == b[j];
    var m :| 0 <= m < |b| && b[m] == a[i];
  }

  lemma {:induction false} SameElements(a: seq<int>, b: seq<int>, below: int, i: nat)
    requires Increasing(a, below) && Increasing(b, below)
    requires forall x :: x in a <==> x in b
    requires i <= |a| && i <= |b| && a[..i] == b[..i]
    ensures a == b
    decreases |a| - i
  {
    if i < |a| { NextAtMost(a, b, below, i); }
    if i < |b| { NextAtMost(b, a, below, i); }
    hide Increasing;
    if i < |a| {
      assert a[..i + 1] == a[..i] + [a[i]] && b[..i + 1] == b[..i] + [b[i]];
      SameElements(a, b, below, i + 1);
    } else {
      assert a == a[..i] && b == b[..i];
    }
  }

  lemma MarkersUnique(pattern: string, names: seq<string>, starts: seq<int>, others: seq<string>, at: seq<int>)
    requires Markers(pattern, names, starts, |pattern|) && Markers(pattern, others, at, |pattern|)
    ensures starts == at && names == others
  {
    MarkersIncluded(pattern, names, starts, others, at);
    MarkersIncluded(pattern, others, at, names, starts);
    SameElements(starts, at, |pattern|, 0);
    forall i | 0 <= i < |names| ensures names[i] == others[i] {
      NameEnds(pattern, starts[i], names[i]);
      NameEnds(pattern, at[i], others[i]);
    }
  }

  lemma MarkersIncluded(pattern: string, names: seq<string>, starts: seq<int>, others: seq<string>, at: seq<int>)
    requires Markers(pattern, names, starts, |pattern|) && Markers(pattern, others, at, |pattern|)
    ensures forall x :: x in starts ==> x in at
  {
    forall x | x in starts ensures x in at {
      var i :| 0 <= i < |starts| && starts[i] == x;
      NameEnds(pattern, x, names[i]);
    }
  }

  /** A pattern compiles to one matcher only, so `NewMatcher` says which one it builds. */
  lemma CompilesUnique(pattern: string, m: Matcher, starts: seq<int>, other: Matcher, at: seq<int>)
    requires Compiles(pattern, m, starts) && Compiles(pattern, other, at)
    ensures m == other && starts == at
  {
    hide Fill;
    hide FinalParam;
    MarkersUnique(pattern, m.names, starts, other.names, at);
    hide Markers;
    FragmentsUnique(pattern, m, other, starts);
  }

  lemma FragmentsUnique(pattern: string, m: Matcher, other: Matcher, starts: seq<int>)
    requires m.names == other.names
    requires CutAtMarkers(pattern, m, starts) && CutBehind(pattern, m, starts)
    requires CutAtMarkers(pattern, other, starts) && CutBehind(pattern, other, starts)
    ensures m.fragments == other.fragments
  {
    hide FragmentStart;
    forall i | 0 <= i < |starts| ensures m.fragments[i] == other.fragments[i] {
      assert CutAt(pattern, m, starts, i) && CutAt(pattern, other, starts, i);
    }
    hide CutAtMarkers;
  }

  /** Both directions of routing: the paths accepted by the matcher of a pattern are the pattern with slash-free values
      filled in for its parameters, up to one slash after a final parameter, and exactly those values are captured. */
  lemma RouteIff(pattern: string, m: Matcher, starts: seq<int>, path: string, values: seq<string>)
    requires Compiles(pattern, m, starts) && Compared(m, path)
    ensures MatchFrom(m, path, 0, 0) == Some(values) <==>
            && |values| == |m.names| && AllSlashFree(values)
            && (path == Fill(m, values) || (FinalParam(m) && path == Fill(m, values) + "/"))
  {
    hide MatchFrom;
    hide Markers;
    MatchIff(m, path, values);
    assert |m.fragments| == 0 ==> |m.names| == 0;
  }

  lemma PatternWithoutNul(pattern: string, m: Matcher, starts: seq<int>)
    requires CutAtMarkers(pattern, m, starts) && CutBehind(pattern, m, starts) && '\0' !in pattern
    ensures NulsLast(m)
  {
    hide FragmentStart;
    forall i | 0 <= i < |m.fragments| ensures NulLast(m.fragments[i]) {
      if i < |starts| { assert CutAt(pattern, m, starts, i); }
    }
  }

  /** A filled pattern is accepted whatever octets it holds. */
  lemma FilledIsAccepted(m: Matcher, values: seq<string>)
    requires WellFormed(m) && |values| == |m.names| && AllSlashFree(values)
    ensures MatchFrom(m, Fill(m, values), 0, 0) == Some(values)
  {
    hide MatchFrom;
    hide FillFrom;
    var path := Fill(m, values);
    assert path[0..] == path;
    FitsMatch(m, path, 0, 0, values);
  }

  // ---------- Repeated names ----------

  ghost predicate DistinctNames(names: seq<string>) {
    forall i, j :: 0 <= i < j < |names| ==> names[i] != names[j]
  }

  /** Two parameters of the pattern have the same name. */
  ghost predicate RepeatedName(pattern: string) {
    exists p, q, name :: p < q && ParamAt(pattern, p, name) && ParamAt(pattern, q, name)
  }

  lemma RepeatedIff(pattern: string, m: Matcher, starts: seq<int>)
    requires Compiles(pattern, m, starts)
    ensures RepeatedName(pattern) <==> !DistinctNames(m.names)
  {
    hide Fill;
    hide CutAtMarkers;
    hide CutBehind;
    hide FinalParam;
    hide ParamAt;
    if RepeatedName(pattern) {
      var p, q, name :| p < q && ParamAt(pattern, p, name) && ParamAt(pattern, q, name);
      NameListed(pattern, m.names, starts, p, name);
      NameListed(pattern, m.names, starts, q, name);
    }
    if i, j :| 0 <= i < j < |m.names| && m.names[i] == m.names[j] {
      assert ParamAt(pattern, starts[i], m.names[i]) && ParamAt(pattern, starts[j], m.names[i]) && starts[i] < starts[j];
    }
  }

  /** On every accepted path every captured value is found again under its name. */
  ghost predicate ReadsBack(m: Matcher)
    requires WellFormed(m)
  {
    forall path: string :: MatchFrom(m, path, 0, 0).Some? ==> ReadBack(m.names, MatchFrom(m, path, 0, 0).value)
  }

  ghost predicate ReadBack(names: seq<string>, values: seq<string>) {
    |values| == |names| && forall k :: 0 <= k < |names| ==> names[k] in Bound(names, values) && Bound(names, values)[names[k]] == values[k]
  }

  lemma {:induction false} FirstWithName(names: seq<string>, j: nat) returns (i: nat)
    requires j < |names|
    ensures i <= j && names[i] == names[j] && forall k :: 0 <= k < i ==> names[k] != names[i]
    decreases j
  {
    if k: nat :| k < j && names[k] == names[j] { i := FirstWithName(names, k); } else { i := j; }
  }

  /** A value for the later of two parameters with the same name is lost. */
  lemma ValueLost(names: seq<string>, i: nat, j: nat) returns (values: seq<string>)
    requires i < j < |names| && names[i] == names[j]
    ensures |values| == |names| && AllSlashFree(values) && !ReadBack(names, values)
  {
    hide Bound;
    var first := FirstWithName(names, i);
    values := seq(|names|, k => if k == j then "x" else "");
    assert forall k :: 0 <= k < |values| ==> values[k] == "x" || values[k] == "";
    BoundFirst(names, values);
  }

  /** Every captured value can be read back under its name, on every accepted path, exactly for the patterns without a
      repeated name. */
  lemma ReadBackIff(pattern: string, m: Matcher, starts: seq<int>)
    requires Compiles(pattern, m, starts)
    ensures ReadsBack(m) <==> !RepeatedName(pattern)
  {
    hide MatchFrom;
    hide Bound;
    hide Fill;
    hide Markers;
    RepeatedIff(pattern, m, starts);
    if DistinctNames(m.names) {
      forall path | MatchFrom(m, path, 0, 0).Some? ensures ReadBack(m.names, MatchFrom(m, path, 0, 0).value) {
        CapturedLength(m, path, 0, 0);
        BoundFirst(m.names, MatchFrom(m, path, 0, 0).value);
      }
    } else {
      var i: nat, j: nat :| i < j < |m.names| && m.names[i] == m.names[j];
      var values := ValueLost(m.names, i, j);
      FilledIsAccepted(m, values);
    }
  }

  /** The pattern "/:a/:a" is accepted, and of the path "/x/y" only "x" is kept. */
  lemma RepeatedNameLosesValue()
    ensures var m := Matcher(["/", ""], ["a", "a"]);
            && Compiles("/:a/:a", m, [0, 3]) && RepeatedName("/:a/:a")
            && MatchFrom(m, "/x/y", 0, 0) == Some(["x", "y"])
            && Bound(m.names, ["x", "y"]) == map["a" := "x"]
  {
    hide MatchFrom;
    hide Bound;
    hide Markers;
    hide FillFrom;
    var m := Matcher(["/", ""], ["a", "a"]);
    TwoMarkers();
    FillTwo(m, "x", "y");
    FillTwo(m, ":a", ":a");
    assert "/" + "x" + "/" + "y" == "/x/y";
    assert ":" + "a" == ":a";
    assert Colons(m.names) == [":a", ":a"];
    FilledIsAccepted(m, ["x", "y"]);
    BoundTwice();
    assert Compiles("/:a/:a", m, [0, 3]);
    RepeatedIff("/:a/:a", m, [0, 3]);
    assert m.names[0] == m.names[1];
  }

  lemma OneMarker()
    ensures Markers("/x\0a/:p", ["p"], [4], 7)
  {
    var pattern := "/x\0a/:p";
    assert pattern[4..6] == MARKER && pattern[6..7] == "p";
    forall p | 0 <= p < 7 && OccursAt(pattern, MARKER, p) ensures p == 4 { MarkerColon(pattern, p); }
    var starts: seq<int> := [4];
    assert starts[0] == 4;
    assert ParamAt(pattern, 4, "p");
  }

  lemma TwoMarkers()
    ensures Markers("/:a/:a", ["a", "a"], [0, 3], 6)
  {
    var pattern := "/:a/:a";
    assert pattern[0..2] == MARKER && pattern[3..5] == MARKER && pattern[2..3] == "a" && pattern[5..6] == "a";
    forall p | 0 <= p < 6 && OccursAt(pattern, MARKER, p) ensures p == 0 || p == 3 {
      MarkerColon(pattern, p);
    }
    var starts: seq<int> := [0, 3];
    assert starts[0] == 0 && starts[1] == 3;
    assert ParamAt(pattern, 0, "a") && ParamAt(pattern, 3, "a");
  }

  lemma BoundTwice()
    ensures Bound(["a", "a"], ["x", "y"]) == map["a" := "x"]
  {
    hide Bound;
    var names := ["a", "a"];
    assert names[..0] == [] && names[..1] == ["a"] && names[..2] == names;
    BoundStep(names, [], "x");
    BoundStep(names, ["x"], "y");
    NothingBound();
    assert [] + ["x"] == ["x"] && ["x"] + ["y"] == ["x", "y"];
  }

  lemma FillTwo(m: Matcher, v: string, w: string)
    requires m.fragments == ["/", ""] && |m.names| == 2
    ensures Fill(m, [v, w]) == "/" + v + "/" + w
  {
    assert [v, w][1..] == [w];
    FillGo(m, 0, [v, w]);
    FillLast(m, 1, w);
    hide FillFrom;
    assert "" + w == w;
    assert "/" + (v + ("/" + w)) == "/" + v + "/" + w;
  }

  // ---------- A NUL in a fragment ----------

  /** Every accepted path is the filled pattern, with the captured values. */
  ghost predicate AcceptsOnlyFilled(m: Matcher)
    requires WellFormed(m)
  {
    forall path: string :: MatchFrom(m, path, 0, 0).Some? ==> Fits(m, 0, path, MatchFrom(m, path, 0, 0).value)
  }

  /** What follows a NUL does not count. */
  lemma {:induction false} SameBeforeNul(a: string, f: string, g: string, k: nat)
    requires |a| == |f| == |g| && k < |f| && f[k] == '\0' && f[..k + 1] == g[..k + 1]
    ensures SameUpToNul(a, f) <==> SameUpToNul(a, g)
    decreases k
  {
    assert f[0] == f[..k + 1][0] == g[0] && f[k] == f[..k + 1][k] == g[k];
    if k > 0 {
      assert f[1..][..k] == f[..k + 1][1..] == g[1..][..k];
      SameBeforeNul(a[1..], f[1..], g[1..], k - 1);
    }
  }

  /** `g` in place of fragment `x`. */
  function Replaced(m: Matcher, x: nat, g: string): Matcher
    requires x < |m.fragments|
  {
    m.(fragments := m.fragments[x := g])
  }

  ghost predicate Alike(f: string, g: string) {
    |f| == |g| && forall a: string :: |a| == |f| ==> (SameUpToNul(a, f) <==> SameUpToNul(a, g))
  }

  lemma {:induction false} ReplacedMatches(m: Matcher, x: nat, g: string, path: string, i: nat, pos: nat)
    requires x < |m.fragments| && i <= |m.fragments| && Alike(m.fragments[x], g)
    ensures MatchFrom(Replaced(m, x, g), path, i, pos) == MatchFrom(m, path, i, pos)
    decreases |m.fragments| - i
  {
    hide SameUpToNul;
    hide MatchFrom;
    hide IndexFrom;
    var n := Replaced(m, x, g);
    MatchStep(m, path, i, pos);
    MatchStep(n, path, i, pos);
    if i < |m.fragments| {
      var q := pos + |m.fragments[i]|;
      assert |n.fragments[i]| == |m.fragments[i]|;
      assert q <= |path| ==> (SameUpToNul(path[pos..q], m.fragments[i]) <==> SameUpToNul(path[pos..q], n.fragments[i]));
      ReplacedMatches(m, x, g, path, i + 1, q);
      if q <= |path| { ReplacedMatches(m, x, g, path, i + 1, IndexFrom(path, '/', q) + 1); }
    }
  }

  lemma Sides(a: string, b: string, c: string, d: string)
    requires |a| == |c|
    ensures a + b == c + d <==> a == c && b == d
  {
    assert a == (a + b)[..|a|] && b == (a + b)[|a|..] && c == (c + d)[..|c|] && d == (c + d)[|c|..];
  }

  /** Filled in, the two matchers give different texts of the same length. */
  lemma {:induction false} ReplacedFills(m: Matcher, x: nat, g: string, i: nat, values: seq<string>)
    requires WellFormed(m) && x < |m.fragments| && i <= |m.fragments| && |g| == |m.fragments[x]|
    requires |values| == if i < |m.names| then |m.names| - i else 0
    ensures var a, b := FillFrom(m, i, values), FillFrom(Replaced(m, x, g), i, values);
            |a| == |b| && (a == b <==> i > x || g == m.fragments[x])
    decreases |m.fragments| - i
  {
    var n := Replaced(m, x, g);
    if i < |m.names| {
      FillStep(m, i, values);
      FillStep(n, i, values);
      hide FillFrom;
      var more, other := "", "";
      if i + 1 < |m.fragments| {
        ReplacedFills(m, x, g, i + 1, values[1..]);
        more, other := FillFrom(m, i + 1, values[1..]), FillFrom(n, i + 1, values[1..]);
        Sides("/", more, "/", other);
        more, other := "/" + more, "/" + other;
      }
      Sides(values[0], more, values[0], other);
      Sides(m.fragments[i], values[0] + more, n.fragments[i], values[0] + other);
    }
  }

  /** A fragment with a NUL before its last octet: with another last octet the path is accepted all the same. */
  lemma NulHides(m: Matcher, x: nat, k: nat) returns (path: string)
    requires WellFormed(m) && x < |m.fragments| && k + 1 < |m.fragments[x]| && m.fragments[x][k] == '\0'
    ensures MatchFrom(m, path, 0, 0).Some? && !Fits(m, 0, path, MatchFrom(m, path, 0, 0).value)
  {
    hide MatchFrom;
    hide FillFrom;
    var f := m.fragments[x];
    var l := |f| - 1;
    var g := f[l := if f[l] == 'x' then 'y' else 'x'];
    assert g[l] != f[l];
    assert Alike(f, g) by {
      hide SameUpToNul;
      assert f[..k + 1] == g[..k + 1];
      forall a: string | |a| == |f| ensures SameUpToNul(a, f) <==> SameUpToNul(a, g) { SameBeforeNul(a, f, g, k); }
    }
    var n := Replaced(m, x, g);
    var values: seq<string> := seq(|m.names|, _ => "");
    path := Fill(n, values);
    FilledIsAccepted(n, values);
    ReplacedMatches(m, x, g, path, 0, 0);
    ReplacedFills(m, x, g, 0, values);
  }

  /** Accepted paths always fit the pattern exactly when no fragment holds a NUL before its last octet. */
  lemma AcceptsOnlyFilledIff(pattern: string, m: Matcher, starts: seq<int>)
    requires Compiles(pattern, m, starts)
    ensures AcceptsOnlyFilled(m) <==> NulsLast(m)
  {
    hide MatchFrom;
    hide Fits;
    hide Fill;
    if NulsLast(m) {
      forall path | MatchFrom(m, path, 0, 0).Some? ensures Fits(m, 0, path, MatchFrom(m, path, 0, 0).value) {
        MatchIff(m, path, MatchFrom(m, path, 0, 0).value);
      }
    } else {
      var x: nat :| x < |m.fragments| && !NulLast(m.fragments[x]);
      var k: nat :| k < |m.fragments[x]| - 1 && m.fragments[x][k] == '\0';
      var path := NulHides(m, x, k);
    }
  }

  /** With a NUL in pattern and path the comparison stops early, and what follows it in the fragment is not looked at.
      `SameIff` says for which pairs. */
  lemma NulEndsComparison()
    ensures var m := Matcher(["/x\0a/"], ["p"]);
            && Compiles("/x\0a/:p", m, [4]) && !NulsLast(m)
            && MatchFrom(m, "/x\0b/y", 0, 0) == Some(["y"])
  {
    var m := Matcher(["/x\0a/"], ["p"]);
    FillLast(m, 0, ":p");
    assert ":" + "p" == ":p";
    assert Colons(m.names) == [":p"];
    OneMarker();
    assert !NulLast(m.fragments[0]) by { assert m.fragments[0][2] == '\0'; }
    assert Compiles("/x\0a/:p", m, [4]) by {
      assert "/x\0a/:p"[0..5] == "/x\0a/";
      hide Markers;
      hide FillFrom;
    }
    var path := "/x\0b/y";
    var f := m.fragments[0];
    var here := path[0..0 + |f|];
    assert here == "/x\0b/";
    assert here[2] == f[2] == '\0' && here[..2] == f[..2];
    SameIff(here, f);
    hide SameUpToNul;
    hide MatchFrom;
    MatchStep(m, path, 0, 0);
    IndexFromIs(path, '/', 5, 6);
    MatchStep(m, path, 1, 7);
    assert path[5..6] == "y";
    assert ["y"] + [] == ["y"];
  }
}
