/** `is_valid_path`: a path that never climbs above where it starts. */
module PathCheck {
  import opened Text

  /** The non-empty components between slashes. */
  function Components(s: string): seq<string>
    decreases |s|
  {
    if s == "" then []
    else if s[0] == '/' then Components(s[1..])
    else
      var e := IndexOf(s, '/');
      [s[..e]] + Components(s[e..])
  }

  /** Slashes only separate: any number of them, at the front and at the end too. */
  lemma ComponentsMean(c: string, s: string)
    requires c != "" && '/' !in c
    ensures Components(c) == [c] && Components("/" + s) == Components(s)
    ensures Components(c + "/" + s) == [c] + Components(s)
  {
    IndexOfIs(c, '/', |c|);
    assert c[..|c|] == c && c[|c|..] == "";
    var t := c + "/" + s;
    assert t[0] == c[0] && forall j :: 0 <= j < |c| ==> t[j] == c[j];
    IndexOfIs(t, '/', |c|);
    assert t[..|c|] == c && t[|c|..] == "/" + s && ("/" + s)[1..] == s;
  }

  /** The depth never goes below zero when the walk starts at `level`. */
  predicate NeverBelow(components: seq<string>, level: nat)
    decreases |components|
  {
    components == []
    || (if components[0] == "." then NeverBelow(components[1..], level)
        else if components[0] == ".." then level > 0 && NeverBelow(components[1..], level - 1)
        else NeverBelow(components[1..], level + 1))
  }

  // ---------- What the depth means ----------

  /** One component followed from a directory; the parent of the root is the root. */
  function Entered(dir: seq<string>, c: string): seq<string> {
    if c == "." then dir else if c != ".." then dir + [c] else if dir == [] then [] else dir[..|dir| - 1]
  }

  /** Following the components from a directory, given by the names that lead to it. */
  function Walk(dir: seq<string>, components: seq<string>): seq<string>
    decreases |components|
  {
    if components == [] then dir
    else Walk(Entered(dir, components[0]), components[1..])
  }

  /** At no point does the walk leave `base`. */
  ghost predicate StaysUnder(base: seq<string>, dir: seq<string>, components: seq<string>) {
    forall k :: 0 <= k <= |components| ==> base <= Walk(dir, components[..k])
  }

  lemma StaysStep(base: seq<string>, dir: seq<string>, components: seq<string>)
    requires components != []
    ensures StaysUnder(base, dir, components) <==> base <= dir && StaysUnder(base, Entered(dir, components[0]), components[1..])
  {
    var next, rest := Entered(dir, components[0]), components[1..];
    assert Walk(dir, components[..0]) == dir;
    forall k | 0 <= k <= |rest| ensures Walk(dir, components[..k + 1]) == Walk(next, rest[..k]) {
      assert components[..k + 1][1..] == rest[..k];
    }
    if base <= dir && StaysUnder(base, next, rest) {
      forall k | 0 <= k <= |components| ensures base <= Walk(dir, components[..k]) {
        if k > 0 { assert Walk(dir, components[..k - 1 + 1]) == Walk(next, rest[..k - 1]); }
      }
    }
  }

  /** The depth check is exact: below any directory but the root, the walk stays under it if and only if the depth never
      goes below zero. */
  lemma {:induction false} NeverBelowIff(base: seq<string>, dir: seq<string>, components: seq<string>)
    requires base != [] && base <= dir
    ensures NeverBelow(components, |dir| - |base|) <==> StaysUnder(base, dir, components)
    decreases |components|
  {
    hide StaysUnder;
    if components == [] {
      assert StaysUnder(base, dir, []) by { StaysAtStart(base, dir); }
    } else {
      var next := Entered(dir, components[0]);
      StaysStep(base, dir, components);
      if base <= next {
        NeverBelowIff(base, next, components[1..]);
      } else {
        LeftAtOnce(base, next, components[1..]);
      }
    }
  }

  lemma StaysAtStart(base: seq<string>, dir: seq<string>)
    requires base <= dir
    ensures StaysUnder(base, dir, [])
  {
  }

  lemma LeftAtOnce(base: seq<string>, dir: seq<string>, components: seq<string>)
    requires !(base <= dir)
    ensures !StaysUnder(base, dir, components)
  {
    assert Walk(dir, components[..0]) == dir;
  }

  // ---------- The loop ----------

  lemma ComponentsStep(s: string)
    ensures s == "" ==> Components(s) == []
    ensures s != "" && s[0] == '/' ==> Components(s) == Components(s[1..])
    ensures s != "" && s[0] != '/' ==>
              IndexOf(s, '/') > 0 && Components(s) == [s[..IndexOf(s, '/')]] + Components(s[IndexOf(s, '/')..])
  {
  }

  method SkipSlashes(path: string, i0: nat) returns (i: nat)
    requires i0 <= |path|
    ensures i0 <= i <= |path| && (i < |path| ==> path[i] != '/')
    ensures Components(path[i..]) == Components(path[i0..])
    ensures forall j :: i0 <= j < i ==> path[j] == '/'
  {
    hide Components;
    i := i0;
    while i < |path| && path[i] == '/'
      invariant i0 <= i <= |path|
      invariant Components(path[i..]) == Components(path[i0..])
      invariant forall j :: i0 <= j < i ==> path[j] == '/'
    {
      ComponentsStep(path[i..]);
      assert path[i..][1..] == path[i + 1..];
      i := i + 1;
    }
  }

  /** True exactly when no octet is forbidden and the depth stays at zero or above; the assertion in the loop always
      holds, and the level does not wrap. */
  method IsValidPath(path: string) returns (valid: bool)
    ensures valid <==> '\0' !in path && '\\' !in path && NeverBelow(Components(path), 0)
  {
    hide Components;
    var level: nat := 0;
    assert path[0..] == path;
    var i := SkipSlashes(path, 0);
    while i < |path|
      invariant 0 <= i <= |path| && (i < |path| ==> path[i] != '/')
      invariant forall j :: 0 <= j < i ==> path[j] != '\0' && path[j] != '\\'
      invariant NeverBelow(Components(path[i..]), level) <==> NeverBelow(Components(path), 0)
    {
      var beg := i;
      while i < |path| && path[i] != '/'
        invariant beg <= i <= |path|
        invariant forall j :: beg <= j < i ==> path[j] != '/'
        invariant forall j :: 0 <= j < i ==> path[j] != '\0' && path[j] != '\\'
      {
        if path[i] == '\0' {
          return false;
        } else if path[i] == '\\' {
          return false;
        }
        i := i + 1;
      }
      var len := i - beg;
      assert len > 0;
      var component := path[beg..beg + len];
      ComponentCut(path, beg, i);
      if component == "." {
      } else if component == ".." {
        if level == 0 { return false; }
        level := level - 1;
      } else {
        level := level + 1;
      }
      i := SkipSlashes(path, i);
    }
    ComponentsStep(path[i..]);
    return true;
  }

  lemma ComponentCut(path: string, beg: nat, i: nat)
    requires beg < i <= |path| && (i < |path| ==> path[i] == '/')
    requires forall j :: beg <= j < i ==> path[j] != '/'
    ensures Components(path[beg..]) == [path[beg..i]] + Components(path[i..])
  {
    var s := path[beg..];
    ComponentsStep(s);
    hide Components;
    IndexOfIs(s, '/', i - beg);
    assert s[..i - beg] == path[beg..i] && s[i - beg..] == path[i..];
  }

  /** A path that passes, looked up below any directory but the root, never leads out of it on the way; one that fails
      with no forbidden octet does. */
  lemma ValidPathStays(path: string, base: seq<string>)
    requires base != []
    ensures NeverBelow(Components(path), 0) <==> StaysUnder(base, base, Components(path))
  {
    NeverBelowIff(base, base, Components(path));
  }
}
