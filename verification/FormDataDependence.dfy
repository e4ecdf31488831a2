/** Exactly which multipart bodies are parsed alike however they are cut: every body that is not tame has a cut that
    shows the caller something else. */
module FormDataDependence {
  import opened Text
  import opened PartHeader
  import opened FormDataSpec
  import opened FormDataChunks
  import opened FormDataRoundTrip

  /** The same state with other unread octets. */
  ghost function With(s: State, pending: string): State { s.(pending := pending) }

  // ---------- A line that is too long when it comes first ----------

  lemma CutInLine(p: string, pos: nat)
    requires pos == Find(p, CRLF) && pos + 1 <= |p|
    ensures Find(p[..pos + 1], CRLF) == pos + 1
  {
    var l := p[..pos + 1];
    assert p == l + p[pos + 1..];
    var i := Find(l, CRLF);
    if i < |l| { OccursInPrefix(l, p[pos + 1..], CRLF, i); }
  }

  lemma LineTaken(cfg: Config, s: State, a: string)
    requires s.phase == Headers
    requires var pos := Find(s.pending, CRLF);
             0 < pos < |s.pending| && ApplyLine(s.pending[..pos], s.file, cfg.decode).ok
    ensures var pos := Find(s.pending, CRLF);
            var front := s.pending[..pos + 2] + a;
            var file := ApplyLine(s.pending[..pos], s.file, cfg.decode).file;
            && Find(front, CRLF) == pos
            && HeaderLines(cfg, With(s, front)) == HeaderLines(cfg, With(s.(file := file), a))
  {
    hide ApplyLine;
    var p := s.pending;
    var pos := Find(p, CRLF);
    var line := p[..pos + 2];
    assert p == line + p[pos + 2..];
    forall j | 0 <= j <= pos ensures OccursAt(line, CRLF, j) <==> OccursAt(p, CRLF, j) {
      OccursInPrefix(line, p[pos + 2..], CRLF, j);
    }
    FindIs(line, CRLF, pos);
    FindStable(line, a, CRLF);
    assert (line + a)[..pos] == p[..pos] && (line + a)[pos + 2..] == a;
    hide Find;
    HeaderLinesStep(cfg, With(s, line + a));
  }

  /** The lines before the first one that is too long, and that line without its last octet. */
  lemma {:induction false} LongLine(cfg: Config, s: State) returns (a: string, l: string, rest: string)
    requires s.phase == Headers && HeaderLines(cfg, s).ok && !ShortLines(cfg, s)
    ensures s.pending == a + (l + rest) && Find(l, CRLF) > HEADER_MAX_LENGTH
    ensures a != "" ==> Find(a, CRLF) <= HEADER_MAX_LENGTH
    ensures var h := HeaderLines(cfg, With(s, a));
            h.ok && h.state.phase == Headers && h.state.pending == ""
    decreases |s.pending|
  {
    hide ApplyLine;
    hide Find;
    hide HeaderLines;
    HeaderLinesStep(cfg, s);
    var p := s.pending;
    var pos := Find(p, CRLF);
    if pos == |p| || pos >= HEADER_MAX_LENGTH {
      a := "";
      l := if pos == |p| then p else p[..pos + 1];
      rest := if pos == |p| then "" else p[pos + 1..];
      assert p == l + rest;
      assert a + (l + rest) == l + rest;
      if pos < |p| { CutInLine(p, pos); }
      FirstLineStays(cfg, With(s, ""), "");
      hide ShortLines;
    } else {
      var effect := ApplyLine(p[..pos], s.file, cfg.decode);
      var t := s.(file := effect.file, pending := p[pos + 2..]);
      hide ShortLines;
      var a1;
      a1, l, rest := LongLine(cfg, t);
      LineTaken(cfg, s, a1);
      a := p[..pos + 2] + a1;
      assert p == p[..pos + 2] + p[pos + 2..];
      AppendAssoc(p[..pos + 2], a1, l + rest);
    }
  }

  lemma JoinCons(first: string, rest: seq<string>)
    ensures Join([first] + rest) == first + Join(rest)
  {
    assert ([first] + rest)[1..] == rest;
  }

  lemma JoinTwo(a: string, b: string)
    ensures Join([a, b]) == a + b
  {
    var none: seq<string> := [];
    assert [a, b] == [a] + [b] && [b] == [b] + none;
    JoinCons(a, [b]);
    JoinCons(b, none);
    assert b + "" == b;
  }

  /** Cut there, the block is refused. */
  lemma HeadersBreak(cfg: Config, s: State) returns (chunks: seq<string>)
    requires s.phase == Headers && HeaderLines(cfg, s).ok && !ShortLines(cfg, s)
    ensures chunks != [] && chunks[0] != "" && Join(chunks) == s.pending
    ensures Observe(Feed(cfg, With(s, ""), chunks)) == Observation(s.parts, false, s.valid)
  {
    hide Find;
    hide HeaderLines;
    hide ShortLines;
    hide Run;
    hide Step;
    var a, l, rest := LongLine(cfg, s);
    var h := HeaderLines(cfg, With(s, a)).state;
    HeaderLinesShow(cfg, With(s, a));
    var last: seq<string> := [l, rest];
    JoinTwo(l, rest);
    JoinCons(a, last);
    RefusedLine(cfg, h, l);
    if a == "" {
      chunks := last;
      assert a + (l + rest) == l + rest;
      RefusedLine(cfg, With(s, ""), l);
    } else {
      chunks := [a] + last;
      assert chunks[1..] == last;
      LinesRead(cfg, With(s, a));
      assert Append(With(s, ""), a) == With(s, a);
    }
  }

  lemma RefusedLine(cfg: Config, s: State, l: string)
    requires s.phase == Headers && s.pending == "" && Find(l, CRLF) > HEADER_MAX_LENGTH
    ensures l != "" && Run(cfg, Append(s, l)) == Outcome(Append(s, l), false)
  {
    assert Append(s, l).pending == l;
    hide Find;
    hide HeaderLines;
    RunStep(cfg, Append(s, l));
  }

  lemma LinesRead(cfg: Config, s: State)
    requires s.phase == Headers && s.pending != "" && Find(s.pending, CRLF) <= HEADER_MAX_LENGTH
    requires HeaderLines(cfg, s).ok && HeaderLines(cfg, s).state.phase == Headers
    ensures Run(cfg, s) == HeaderLines(cfg, s)
  {
    hide Find;
    hide HeaderLines;
    RunStep(cfg, s);
  }

  /** A new entry waits for its first octet. */
  lemma FeedEntry(cfg: Config, s: State, chunks: seq<string>)
    requires s.phase == NewEntry && s.pending == "" && chunks != [] && chunks[0] != ""
    ensures Feed(cfg, s, chunks) == Feed(cfg, Reopened(s, ""), chunks)
  {
    hide Run;
    var c := chunks[0];
    assert Append(s, c).pending == c;
    EntryOpens(cfg, Append(s, c));
    assert Reopened(Append(s, c), c) == Append(Reopened(s, ""), c);
  }

  // ---------- An epilogue that is read as headers ----------

  /** The closing delimiter and what follows it up to the CRLF, then the rest: now it is a new entry. */
  lemma FeedReopened(cfg: Config, s: State, junk: string, chunks: seq<string>)
    requires s.phase == Boundary && s.pending == "" && chunks != [] && chunks[0] != ""
    ensures var closed := s.(valid := true);
            Feed(cfg, s, [DASH + junk, CRLF + chunks[0]] + chunks[1..]) == Feed(cfg, Reopened(closed, ""), chunks)
  {
    hide Run;
    var closed := s.(valid := true);
    var all := [DASH + junk, CRLF + chunks[0]] + chunks[1..];
    assert all[1..] == [CRLF + chunks[0]] + chunks[1..] && all[1..][1..] == chunks[1..];
    var first := Append(s, DASH + junk);
    assert first.pending == DASH + junk && DASH <= first.pending && first.pending[0] == '-';
    assert Step(cfg, first) == Go(closed);
    RunStep(cfg, first);
    RunStep(cfg, closed);
    var c := chunks[0];
    var second := Append(closed, CRLF + c);
    assert second.pending == CRLF + c && CRLF <= second.pending && second.pending[2..] == c;
    var entry := closed.(phase := NewEntry, pending := c);
    assert Step(cfg, second) == Go(entry);
    RunStep(cfg, second);
    EntryOpens(cfg, entry);
    assert Reopened(entry, c) == Append(Reopened(closed, ""), c);
  }

  lemma ClosedWhole(cfg: Config, s: State)
    requires s.phase == Boundary && DASH <= s.pending
    ensures Observe(Run(cfg, s)) == Observation(s.parts, true, true)
  {
    var closed := s.(valid := true, pending := "");
    assert s.pending[0] == '-';
    assert Step(cfg, s) == Go(closed);
    RunStep(cfg, s);
    RunStep(cfg, closed);
    hide Run;
  }

  /** A block that is not quiet shows itself, whole or cut. */
  lemma NotQuiet(cfg: Config, s: State) returns (chunks: seq<string>)
    requires s.phase == Headers && !QuietBlock(cfg, s)
    ensures chunks != [] && chunks[0] != "" && Join(chunks) == s.pending
    ensures Observe(Feed(cfg, With(s, ""), chunks)) != Observation(s.parts, true, true)
  {
    hide Find;
    hide HeaderLines;
    hide ShortLines;
    hide Run;
    var o := HeaderLines(cfg, s);
    if o.ok && !ShortLines(cfg, s) {
      chunks := HeadersBreak(cfg, s);
    } else {
      chunks := [s.pending];
      if s.pending == "" {
        FirstLineStays(cfg, s, "");
        assert false;
      }
      assert chunks[1..] == [] && s.pending + "" == s.pending;
      assert Append(With(s, ""), s.pending) == s;
      ShownWhole(cfg, s);
    }
  }

  lemma ShownWhole(cfg: Config, s: State)
    requires s.phase == Headers && s.pending != ""
    requires !HeaderLines(cfg, s).ok || HeaderLines(cfg, s).state.phase == Body
    ensures !Run(cfg, s).ok || |Run(cfg, s).state.parts| > |s.parts|
  {
    hide Find;
    hide HeaderLines;
    RunStep(cfg, s);
    HeaderLinesShow(cfg, s);
    if Step(cfg, s).Go? { RunKeeps(cfg, Step(cfg, s).state); }
    hide Run;
  }

  lemma EpilogueBreak(cfg: Config, s: State) returns (chunks: seq<string>)
    requires s.phase == Boundary && !s.valid && DASH <= s.pending
    requires !QuietEpilogue(cfg, s.(valid := true), s.pending[2..])
    ensures chunks != [] && chunks[0] != "" && Join(chunks) == s.pending
    ensures Observe(Feed(cfg, With(s, ""), chunks)) != Observe(Run(cfg, s))
  {
    hide QuietBlock;
    hide Run;
    hide Feed;
    var closed := s.(valid := true);
    var e := s.pending[2..];
    var q: nat :| OccursAt(e, CRLF, q) && !QuietBlock(cfg, Reopened(closed, e[q + 2..]));
    var h := Reopened(closed, e[q + 2..]);
    var inner := NotQuiet(cfg, h);
    chunks := [DASH + e[..q], CRLF + inner[0]] + inner[1..];
    JoinReopened(s.pending, q, inner);
    ClosedWhole(cfg, s);
    FeedReopened(cfg, With(s, ""), e[..q], inner);
    assert Reopened(With(s, "").(valid := true), "") == With(h, "");
  }

  lemma JoinReopened(p: string, q: nat, inner: seq<string>)
    requires DASH <= p && OccursAt(p[2..], CRLF, q) && inner != [] && Join(inner) == p[2..][q + 2..]
    ensures Join([DASH + p[2..][..q], CRLF + inner[0]] + inner[1..]) == p
  {
    var e := p[2..];
    var later := [CRLF + inner[0]] + inner[1..];
    assert [DASH + e[..q], CRLF + inner[0]] + inner[1..] == [DASH + e[..q]] + later;
    JoinCons(DASH + e[..q], later);
    JoinCons(CRLF + inner[0], inner[1..]);
    AppendAssoc(CRLF, inner[0], Join(inner[1..]));
    CutAtCrlf(p, q);
  }

  lemma CutAtCrlf(p: string, q: nat)
    requires DASH <= p && OccursAt(p[2..], CRLF, q)
    ensures DASH + p[2..][..q] + (CRLF + p[2..][q + 2..]) == p
  {
    var e := p[2..];
    assert e[q..q + 2] == CRLF;
    assert e == e[..q] + CRLF + e[q + 2..];
    assert p == DASH + e;
  }

  // ---------- Up to there ----------

  lemma {:induction false} HeaderConsumed(cfg: Config, s: State)
    requires s.phase == Headers && HeaderLines(cfg, s).ok && HeaderLines(cfg, s).state.phase == Body
    ensures var t := HeaderLines(cfg, s).state;
            && |t.pending| < |s.pending| && t.pending == s.pending[|s.pending| - |t.pending|..]
            && var c := s.pending[..|s.pending| - |t.pending|];
               HeaderLines(cfg, With(s, c)) == Outcome(With(t, ""), true) && Find(c, CRLF) == Find(s.pending, CRLF) < |c|
    decreases |s.pending|
  {
    hide ApplyLine;
    hide Find;
    hide HeaderLines;
    HeaderLinesStep(cfg, s);
    var p := s.pending;
    var pos := Find(p, CRLF);
    if pos == 0 {
      assert p[..2] + "" == p[..2];
      EmptyLineTaken(cfg, s);
    } else {
      var effect := ApplyLine(p[..pos], s.file, cfg.decode);
      var t := s.(file := effect.file, pending := p[pos + 2..]);
      HeaderConsumed(cfg, t);
      var rest := HeaderLines(cfg, t).state.pending;
      var c1 := t.pending[..|t.pending| - |rest|];
      LineTaken(cfg, s, c1);
      assert p[..|p| - |rest|] == p[..pos + 2] + c1;
    }
  }

  lemma EmptyLineTaken(cfg: Config, s: State)
    requires s.phase == Headers && Find(s.pending, CRLF) == 0 < |s.pending| && cfg.admit(s.parts, s.file)
    ensures HeaderLines(cfg, With(s, s.pending[..2]))
         == Outcome(s.(phase := Body, pending := "", parts := s.parts + [Part(s.file, "")]), true)
    ensures Find(s.pending[..2], CRLF) == 0
  {
    var c := s.pending[..2];
    assert c == CRLF;
    FindAtFront(CRLF, "");
    assert CRLF + "" == CRLF && c[2..] == "";
    hide Find;
    HeaderLinesStep(cfg, With(s, c));
  }

  /** The octets that a turn of the outer loop consumes lead to the same state when they come alone. */
  ghost predicate Consumes(cfg: Config, s: State, t: State)
    requires Wf(s)
  {
    && |t.pending| < |s.pending| && t.pending == s.pending[|s.pending| - |t.pending|..]
    && Run(cfg, With(s, s.pending[..|s.pending| - |t.pending|])) == Outcome(With(t, ""), true)
  }

  lemma RunInto(cfg: Config, s: State, t: State)
    requires Wf(s) && s.pending != "" && Step(cfg, s) == Go(t) && t.pending == ""
    ensures Run(cfg, s) == Outcome(t, true)
  {
    hide Step;
    RunStep(cfg, s);
    RunStep(cfg, t);
  }

  lemma PreambleConsumed(cfg: Config, s: State, t: State)
    requires s.phase == Preamble && s.pending != "" && Step(cfg, s) == Go(t)
    ensures Consumes(cfg, s, t)
  {
    var d := DashBoundaryCrlf(cfg);
    var p := s.pending;
    var pos := Find(p, d);
    var c := p[..pos + |d|];
    assert p == c + p[pos + |d|..];
    FrontFound(c, p[pos + |d|..], d, pos);
    hide Find;
    assert c[pos + |d|..] == "";
    RunInto(cfg, With(s, c), With(t, ""));
  }

  lemma FrontFound(c: string, rest: string, d: string, pos: nat)
    requires d != "" && pos + |d| == |c| && Find(c + rest, d) == pos
    ensures Find(c, d) == pos
  {
    forall j | 0 <= j <= pos ensures OccursAt(c, d, j) <==> OccursAt(c + rest, d, j) {
      OccursInPrefix(c, rest, d, j);
    }
    FindIs(c, d, pos);
  }

  lemma HeadersConsumed(cfg: Config, s: State, t: State)
    requires s.phase == Headers && s.pending != "" && Step(cfg, s) == Go(t)
    ensures Consumes(cfg, s, t)
  {
    hide Find;
    hide HeaderLines;
    HeaderConsumed(cfg, s);
    var c := s.pending[..|s.pending| - |t.pending|];
    HeaderLinesShow(cfg, With(s, c));
    RunInto(cfg, With(s, c), With(t, ""));
  }

  lemma BodyConsumed(cfg: Config, s: State, t: State)
    requires s.phase == Body && Wf(s) && TakesAll(cfg) && s.pending != "" && Step(cfg, s) == Go(t)
    ensures Consumes(cfg, s, t)
  {
    DelimiterNonEmpty(cfg);
    var d := Delimiter(cfg);
    var p := s.pending;
    var pos := Find(p, d);
    var c := p[..pos + |d|];
    assert p == c + p[pos + |d|..];
    FrontFound(c, p[pos + |d|..], d, pos);
    hide Find;
    hide Delimiter;
    assert c[..pos] == p[..pos] && c[pos + |d|..] == "";
    RunInto(cfg, With(s, c), With(t, ""));
  }

  lemma BoundaryConsumed(cfg: Config, s: State, t: State)
    requires s.phase == Boundary && s.pending != "" && !(DASH <= s.pending) && Step(cfg, s) == Go(t)
    ensures Consumes(cfg, s, t)
  {
    var c := s.pending[..2];
    assert c == CRLF && c[2..] == "";
    RunInto(cfg, With(s, c), With(t, ""));
  }

  lemma StepConsumes(cfg: Config, s: State, t: State)
    requires Wf(s) && TakesAll(cfg) && s.pending != "" && Step(cfg, s) == Go(t)
    requires s.phase != NewEntry && !(s.phase == Boundary && DASH <= s.pending)
    ensures Consumes(cfg, s, t) && t.valid == s.valid
  {
    hide Consumes;
    match s.phase
    case Preamble => PreambleConsumed(cfg, s, t);
    case Headers =>
      HeadersConsumed(cfg, s, t);
      HeaderLinesShow(cfg, s);
    case Body => BodyConsumed(cfg, s, t);
    case Boundary => BoundaryConsumed(cfg, s, t);
  }

  lemma FeedConsumed(cfg: Config, s: State, t: State, chunks: seq<string>)
    requires Wf(s) && Consumes(cfg, s, t) && Wf(With(t, "")) && Join(chunks) == t.pending
    ensures var all := [s.pending[..|s.pending| - |t.pending|]] + chunks;
            all[0] != "" && Join(all) == s.pending && Feed(cfg, With(s, ""), all) == Feed(cfg, With(t, ""), chunks)
  {
    hide Run;
    var c := s.pending[..|s.pending| - |t.pending|];
    var all := [c] + chunks;
    assert all[1..] == chunks;
    assert Append(With(s, ""), c) == With(s, c);
  }

  // ---------- Main result ----------

  /** Every body that is not tame has a cut that is seen. */
  lemma {:induction false} SeenCut(cfg: Config, s: State) returns (chunks: seq<string>)
    requires Wf(s) && TakesAll(cfg) && !s.valid && !Tame(cfg, s)
    ensures chunks != [] && chunks[0] != "" && Join(chunks) == s.pending
    ensures Observe(Feed(cfg, With(s, ""), chunks)) != Observe(Run(cfg, s))
    decreases Measure(s)
  {
    hide Find;
    hide Tame;
    hide Run;
    hide Feed;
    hide Step;
    hide HeaderLines;
    hide ShortLines;
    if s.pending == "" { TameEmpty(cfg, s); assert false; }
    if s.phase == Boundary && DASH <= s.pending {
      NotTameClosed(cfg, s);
      chunks := EpilogueBreak(cfg, s);
    } else {
      TameStep(cfg, s);
      if s.phase == Headers && !HeadersTame(cfg, s) {
        chunks := HeadersBreak(cfg, s);
        ReadWhole(cfg, s);
      } else {
        var t := Step(cfg, s).state;
        RunStep(cfg, s);
        if s.phase == NewEntry {
          EntryStep(cfg, s);
          chunks := SeenCut(cfg, t);
          FeedEntry(cfg, With(s, ""), chunks);
          assert Reopened(With(s, ""), "") == With(t, "");
        } else {
          StepConsumes(cfg, s, t);
          var more := SeenCut(cfg, t);
          FeedConsumed(cfg, s, t, more);
          chunks := [s.pending[..|s.pending| - |t.pending|]] + more;
        }
      }
    }
  }

  lemma NotTameClosed(cfg: Config, s: State)
    requires s.phase == Boundary && !s.valid && DASH <= s.pending && !Tame(cfg, s)
    ensures !QuietEpilogue(cfg, s.(valid := true), s.pending[2..])
  {
    hide QuietEpilogue;
  }

  lemma EntryStep(cfg: Config, s: State)
    requires s.phase == NewEntry && s.pending != ""
    ensures Step(cfg, s) == Go(Reopened(s, s.pending))
  {
  }

  /** Read whole, such a block is accepted. */
  lemma ReadWhole(cfg: Config, s: State)
    requires s.phase == Headers && s.pending != "" && Find(s.pending, CRLF) <= HEADER_MAX_LENGTH && HeaderLines(cfg, s).ok
    ensures Run(cfg, s).ok || |Run(cfg, s).state.parts| > |s.parts|
  {
    hide Find;
    hide HeaderLines;
    RunStep(cfg, s);
    HeaderLinesShow(cfg, s);
    if Step(cfg, s).Go? { RunKeeps(cfg, Step(cfg, s).state); }
    hide Run;
  }

  /** Exactly the tame bodies are parsed alike for every cut, with callbacks that take all content. */
  lemma ChunkIndependentIff(cfg: Config, body: string)
    requires TakesAll(cfg)
    ensures (forall chunks :: chunks != [] && Join(chunks) == body ==>
               Observe(Feed(cfg, INITIAL, chunks)) == Observe(Run(cfg, Append(INITIAL, body))))
       <==> Tame(cfg, Append(INITIAL, body))
  {
    hide Tame;
    hide Run;
    hide Feed;
    var s := Append(INITIAL, body);
    assert s.pending == body && With(s, "") == INITIAL;
    if Tame(cfg, s) {
      forall chunks | chunks != [] && Join(chunks) == body
        ensures Observe(Feed(cfg, INITIAL, chunks)) == Observe(Run(cfg, s))
      {
        ChunkIndependence(cfg, INITIAL, chunks);
      }
    } else {
      var chunks := SeenCut(cfg, s);
    }
  }
}
