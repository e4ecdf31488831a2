/** The multipart parser gives the same result however a body is cut into chunks. */
module FormDataChunks {
  import opened Text
  import opened PartHeader
  import opened FormDataSpec

  ghost predicate TakesAll(cfg: Config) {
    forall parts :: cfg.take(parts)
  }

  /** Every header line of the block is shorter than the limit, and so is an unfinished last one. */
  ghost predicate ShortLines(cfg: Config, s: State)
    requires s.phase == Headers
    decreases |s.pending|
  {
    var pos := Find(s.pending, CRLF);
    if pos == |s.pending| then pos <= HEADER_MAX_LENGTH
    else
      pos < HEADER_MAX_LENGTH
      && (pos == 0 ||
          var effect := ApplyLine(s.pending[..pos], s.file, cfg.decode);
          effect.ok ==> ShortLines(cfg, s.(file := effect.file, pending := s.pending[pos + 2..])))
  }

  /** A block that is refused whole: its first line is beyond the limit, or a line fails. A block that is not refused
      must have short lines, because any of its lines can come to be the first one in the buffer. */
  ghost predicate HeadersTame(cfg: Config, s: State)
    requires s.phase == Headers
  {
    Find(s.pending, CRLF) > HEADER_MAX_LENGTH || !HeaderLines(cfg, s).ok || ShortLines(cfg, s)
  }

  /** Header lines that are read without any effect a caller could see. */
  ghost predicate QuietBlock(cfg: Config, s: State)
    requires s.phase == Headers
  {
    ShortLines(cfg, s) && HeaderLines(cfg, s).ok && HeaderLines(cfg, s).state.phase == Headers
  }

  ghost function Reopened(s: State, rest: string): State {
    s.(phase := Headers, file := NO_FILE, pending := rest)
  }

  /** Behind the closing delimiter, whatever follows a CRLF is quiet when it is read as the headers of another part. */
  ghost predicate QuietEpilogue(cfg: Config, s: State, e: string) {
    forall q :: OccursAt(e, CRLF, q) ==> QuietBlock(cfg, Reopened(s, e[q + 2..]))
  }

  ghost predicate Quiet(cfg: Config, s: State) {
    (s.phase == Headers && QuietBlock(cfg, s))
    || (s.phase == NewEntry && QuietBlock(cfg, Reopened(s, s.pending)))
    || (s.phase == Boundary && QuietEpilogue(cfg, s, s.pending))
  }

  /** The bodies on which the parser is deterministic up to chunking. */
  ghost predicate Tame(cfg: Config, s: State)
    requires Wf(s)
    decreases Measure(s)
  {
    s.pending != "" ==>
      if s.valid then Quiet(cfg, s)
      else if s.phase == Boundary && DASH <= s.pending then QuietEpilogue(cfg, s.(valid := true), s.pending[2..])
      else
        && (s.phase == Headers ==> HeadersTame(cfg, s))
        && var p := Step(cfg, s);
           p.Go? ==> Tame(cfg, p.state)
  }

  lemma TameStep(cfg: Config, s: State)
    requires Wf(s) && s.pending != "" && !s.valid && !(s.phase == Boundary && DASH <= s.pending)
    ensures Tame(cfg, s) <==> (s.phase == Headers ==> HeadersTame(cfg, s)) && (Step(cfg, s).Go? ==> Tame(cfg, Step(cfg, s).state))
  {
    hide Step;
    hide HeadersTame;
    hide Quiet;
    hide QuietEpilogue;
  }

  lemma AppendContentTwice(parts: seq<Part>, a: string, b: string)
    requires parts != []
    ensures AppendContent(AppendContent(parts, a), b) == AppendContent(parts, a + b)
  {
    var last := parts[|parts| - 1];
    assert last.content + a + b == last.content + (a + b);
  }

  /** A header block that has been read up to a fragment continues as if it had arrived at once. */
  ghost predicate HeadersAgree(cfg: Config, s: State, b: string)
    requires s.phase == Headers
  {
    var o := HeaderLines(cfg, s);
    var w := HeaderLines(cfg, Append(s, b));
    if !o.ok then Observe(w) == Observe(o)
    else if o.state.phase == Body then w == Outcome(Append(o.state, b), true)
    else w == HeaderLines(cfg, Append(o.state, b)) && (ShortLines(cfg, Append(s, b)) ==> ShortLines(cfg, Append(o.state, b)))
  }

  lemma FragmentShort(cfg: Config, s: State, b: string)
    requires s.phase == Headers
    requires ShortLines(cfg, Append(s, b))
    ensures Find(s.pending, CRLF) <= HEADER_MAX_LENGTH
    ensures Find(s.pending + b, CRLF) <= HEADER_MAX_LENGTH
  {
    hide ApplyLine;
    var p := s.pending;
    if Find(p, CRLF) == |p| {
      var q := Find(p + b, CRLF);
      if q < |p + b| && q + 1 < |p| {
        OccursInPrefix(p, b, CRLF, q);
      }
    } else {
      FindStable(p, b, CRLF);
    }
  }

  /** The first line of a block, once it is complete, is read alike with and without the text after it. */
  lemma LineStable(p: string, b: string)
    requires Find(p, CRLF) < |p|
    ensures var pos := Find(p, CRLF);
            Find(p + b, CRLF) == pos && (p + b)[..pos] == p[..pos] && (p + b)[pos + 2..] == p[pos + 2..] + b
  {
    FindStable(p, b, CRLF);
  }

  lemma {:induction false} HeadersSplit(cfg: Config, s: State, b: string)
    requires s.phase == Headers
    ensures HeadersAgree(cfg, s, b)
    decreases |s.pending|
  {
    hide ApplyLine;
    hide Find;
    var pos := Find(s.pending, CRLF);
    if pos < |s.pending| {
      LineStable(s.pending, b);
      if pos > 0 {
        var effect := ApplyLine(s.pending[..pos], s.file, cfg.decode);
        if effect.ok {
          HeadersSplit(cfg, s.(file := effect.file, pending := s.pending[pos + 2..]), b);
        }
      }
    }
  }

  /** Until the block is complete nothing is shown to the caller; when a line fails, the body is invalid. */
  lemma {:induction false} HeaderLinesShow(cfg: Config, s: State)
    requires s.phase == Headers
    ensures var o := HeaderLines(cfg, s);
            && (!o.ok ==> o.state.parts == s.parts && !o.state.valid)
            && (o.ok ==> o.state.valid == s.valid)
            && (o.ok && o.state.phase == Headers ==> o.state.parts == s.parts && Find(o.state.pending, CRLF) == |o.state.pending|)
            && (o.ok && o.state.phase == Body ==> |o.state.parts| == |s.parts| + 1 && s.parts <= o.state.parts)
    decreases |s.pending|
  {
    hide ApplyLine;
    hide Find;
    hide HeaderLines;
    HeaderLinesStep(cfg, s);
    var pos := Find(s.pending, CRLF);
    if 0 < pos < |s.pending| {
      var effect := ApplyLine(s.pending[..pos], s.file, cfg.decode);
      if effect.ok { HeaderLinesShow(cfg, s.(file := effect.file, pending := s.pending[pos + 2..])); }
    }
  }

  /** A CRLF in the first piece is the first CRLF of the whole. */
  lemma FirstLineStays(cfg: Config, s: State, b: string)
    requires s.phase == Headers
    ensures Find(s.pending, CRLF) < |s.pending| ==> Find(s.pending + b, CRLF) == Find(s.pending, CRLF)
    ensures Find(s.pending, CRLF) == |s.pending| ==> HeaderLines(cfg, s) == Outcome(s, true)
  {
    hide ApplyLine;
    if Find(s.pending, CRLF) < |s.pending| { FindStable(s.pending, b, CRLF); }
    HeaderLinesStep(cfg, s);
    hide HeaderLines;
  }

  lemma HeaderHalts(cfg: Config, s: State)
    requires s.phase == Headers && s.pending != "" && !s.valid
    requires Find(s.pending, CRLF) > HEADER_MAX_LENGTH || !HeaderLines(cfg, s).ok
    ensures Step(cfg, s).Halt? && Observe(Step(cfg, s).outcome) == Observation(s.parts, false, false)
    ensures Run(cfg, s) == Step(cfg, s).outcome
  {
    hide HeaderLines;
    hide Find;
    HeaderLinesShow(cfg, s);
  }

  /** What is still to be read of a block, for a caller who has seen a part of it. */
  lemma HeadersContinue(cfg: Config, s: State, b: string)
    requires s.phase == Headers && s.pending != "" && !s.valid
    requires Tame(cfg, Append(s, b))
    requires Find(s.pending, CRLF) <= HEADER_MAX_LENGTH
    requires HeaderLines(cfg, s).ok && HeaderLines(cfg, s).state.phase == Headers
    ensures var o := HeaderLines(cfg, s);
            && !o.state.valid
            && Observe(Run(cfg, Append(s, b))) == Observe(Run(cfg, Append(o.state, b)))
            && Tame(cfg, Append(o.state, b))
  {
    hide Find;
    hide HeaderLines;
    hide ShortLines;
    hide Tame;
    hide Run;
    hide Quiet;
    var o := HeaderLines(cfg, s);
    var w, v := Append(s, b), Append(o.state, b);
    HeadersSplit(cfg, s, b);
    HeaderLinesShow(cfg, s);
    FirstLineStays(cfg, s, b);
    TameStep(cfg, w);
    if Find(w.pending, CRLF) > HEADER_MAX_LENGTH {
      assert v == w;
    } else if v.pending == "" {
      assert b == "" && w == s;
      RunStep(cfg, s);
      RunStep(cfg, v);
      TameEmpty(cfg, v);
    } else {
      TameStep(cfg, v);
      if !HeaderLines(cfg, w).ok {
        HeaderHalts(cfg, w);
        HeaderHalts(cfg, v);
      } else {
        assert ShortLines(cfg, v);
        ShortFirst(cfg, v);
        RunStep(cfg, w);
        RunStep(cfg, v);
        assert Step(cfg, w) == Step(cfg, v);
      }
    }
  }

  lemma TameEmpty(cfg: Config, s: State)
    requires Wf(s) && s.pending == ""
    ensures Tame(cfg, s)
  {
  }

  lemma ShortFirst(cfg: Config, s: State)
    requires s.phase == Headers && ShortLines(cfg, s)
    ensures Find(s.pending, CRLF) <= HEADER_MAX_LENGTH
  {
    hide ApplyLine;
  }

  lemma HeaderStepSplit(cfg: Config, s: State, b: string)
    requires s.phase == Headers && s.pending != "" && !s.valid
    requires Tame(cfg, Append(s, b))
    ensures var p := Step(cfg, s);
            var w := Step(cfg, Append(s, b));
            && (p.Go? ==> w == Go(Append(p.state, b)))
            && (p.Halt? && !p.outcome.ok ==> w.Halt? && Observe(w.outcome) == Observe(p.outcome))
            && (p.Halt? && p.outcome.ok ==>
                  && !p.outcome.state.valid
                  && Observe(Run(cfg, Append(s, b))) == Observe(Run(cfg, Append(p.outcome.state, b)))
                  && Tame(cfg, Append(p.outcome.state, b)))
  {
    hide Find;
    hide HeaderLines;
    hide ShortLines;
    hide Tame;
    hide Run;
    hide Quiet;
    var w := Append(s, b);
    var o := HeaderLines(cfg, s);
    TameStep(cfg, w);
    HeadersSplit(cfg, s, b);
    HeaderLinesShow(cfg, s);
    FirstLineStays(cfg, s, b);
    if Find(s.pending, CRLF) > HEADER_MAX_LENGTH {
      if ShortLines(cfg, w) { FragmentShort(cfg, s, b); }
      HeaderHalts(cfg, s);
      HeaderHalts(cfg, w);
    } else if !o.ok {
      HeaderHalts(cfg, s);
      HeaderHalts(cfg, w);
    } else if o.state.phase == Headers {
      HeadersContinue(cfg, s, b);
    }
  }

  /** The octets handed over while no delimiter is in sight never belong to a delimiter still to come. */
  ghost predicate BodyAgrees(cfg: Config, s: State, b: string)
    requires s.phase == Body && Wf(s) && s.pending != ""
  {
    var p := Step(cfg, s);
    var w := Step(cfg, Append(s, b));
    if p.Go? then w == Go(Append(p.state, b))
    else
      var o := p.outcome;
      o.ok && o.state.pending != "" && o.state.phase == Body && w == Step(cfg, Append(o.state, b))
  }

  lemma BodyFound(cfg: Config, s: State, b: string)
    requires s.phase == Body && Wf(s) && TakesAll(cfg)
    requires |Delimiter(cfg)| <= |s.pending| && Find(s.pending, Delimiter(cfg)) < |s.pending|
    ensures BodyAgrees(cfg, s, b)
  {
    hide Find;
    hide HeaderStep;
    var d := Delimiter(cfg);
    var p := s.pending;
    var pos := Find(p, d);
    FindStable(p, b, d);
    assert (p + b)[..pos] == p[..pos];
    assert (p + b)[pos + |d|..] == p[pos + |d|..] + b;
  }

  lemma CutAt(p: string, b: string, len: nat, end: nat)
    requires len <= |p| && len + end <= |p + b|
    ensures |p[len..] + b| == |p + b| - len
    ensures (p + b)[..len + end] == p[..len] + (p[len..] + b)[..end]
    ensures (p + b)[len + end..] == (p[len..] + b)[end..]
  {
  }

  /** The state after the octets before the last `|delimiter|` ones have been handed over. */
  ghost function Emitted(cfg: Config, s: State): State
    requires s.phase == Body && Wf(s) && |Delimiter(cfg)| <= |s.pending|
  {
    var len := |s.pending| - |Delimiter(cfg)|;
    s.(parts := AppendContent(s.parts, s.pending[..len]), pending := s.pending[len..])
  }

  lemma EmitStep(cfg: Config, s: State)
    requires s.phase == Body && Wf(s) && TakesAll(cfg)
    requires |Delimiter(cfg)| < |s.pending| && Find(s.pending, Delimiter(cfg)) == |s.pending|
    ensures BodyStep(cfg, s) == Halt(Outcome(Emitted(cfg, s), true))
  {
    hide Find;
  }

  lemma EmittedThenFound(cfg: Config, s: State, b: string, q: nat)
    requires s.phase == Body && Wf(s) && TakesAll(cfg)
    requires |Delimiter(cfg)| < |s.pending| && Find(s.pending, Delimiter(cfg)) == |s.pending|
    requires q == Find(Emitted(cfg, s).pending + b, Delimiter(cfg)) < |Emitted(cfg, s).pending + b|
    ensures BodyStep(cfg, Append(s, b)) == BodyStep(cfg, Append(Emitted(cfg, s), b))
  {
    hide Find;
    hide AppendContent;
    hide Delimiter;
    var d := Delimiter(cfg);
    var p := s.pending;
    var len := |p| - |d|;
    DelimiterNonEmpty(cfg);
    assert (p + b)[len..] == p[len..] + b;
    FindLater(p, b, d, len);
    CutAt(p, b, len, q);
    CutAt(p, b, len, q + |d|);
    AppendContentTwice(s.parts, p[..len], (p[len..] + b)[..q]);
  }

  lemma EmittedThenEmitted(cfg: Config, s: State, b: string)
    requires s.phase == Body && Wf(s) && TakesAll(cfg)
    requires |Delimiter(cfg)| < |s.pending| && Find(s.pending, Delimiter(cfg)) == |s.pending|
    requires Find(Emitted(cfg, s).pending + b, Delimiter(cfg)) == |Emitted(cfg, s).pending + b|
    ensures BodyStep(cfg, Append(s, b)) == BodyStep(cfg, Append(Emitted(cfg, s), b))
  {
    hide Find;
    hide AppendContent;
    hide Delimiter;
    var d := Delimiter(cfg);
    var p := s.pending;
    var len := |p| - |d|;
    DelimiterNonEmpty(cfg);
    assert (p + b)[len..] == p[len..] + b;
    FindLater(p, b, d, len);
    if b == "" {
      assert p[len..] + b == p[len..] && p + b == p;
    } else {
      CutAt(p, b, len, |b|);
      AppendContentTwice(s.parts, p[..len], (p[len..] + b)[..|b|]);
    }
  }

  lemma BodyEmitted(cfg: Config, s: State, b: string)
    requires s.phase == Body && Wf(s) && TakesAll(cfg)
    requires |Delimiter(cfg)| < |s.pending| && Find(s.pending, Delimiter(cfg)) == |s.pending|
    ensures BodyAgrees(cfg, s, b)
  {
    hide Find;
    hide HeaderStep;
    hide BodyStep;
    EmitStep(cfg, s);
    var t := Emitted(cfg, s).pending + b;
    if Find(t, Delimiter(cfg)) < |t| {
      EmittedThenFound(cfg, s, b, Find(t, Delimiter(cfg)));
    } else {
      EmittedThenEmitted(cfg, s, b);
    }
  }

  lemma DelimiterNonEmpty(cfg: Config)
    ensures |Delimiter(cfg)| >= 4
  {
  }

  lemma BodyStepSplit(cfg: Config, s: State, b: string)
    requires s.phase == Body && Wf(s) && s.pending != ""
    requires TakesAll(cfg)
    ensures BodyAgrees(cfg, s, b)
  {
    hide Find;
    hide HeaderStep;
    var d := Delimiter(cfg);
    if |d| <= |s.pending| && Find(s.pending, d) < |s.pending| {
      BodyFound(cfg, s, b);
    } else if |d| < |s.pending| {
      BodyEmitted(cfg, s, b);
    }
  }

  // ---------- Behind the closing delimiter ----------

  lemma EpilogueSuffix(cfg: Config, s: State, a: string, b: string)
    requires QuietEpilogue(cfg, s, a + b)
    ensures QuietEpilogue(cfg, s, b)
  {
    hide QuietBlock;
    forall q | OccursAt(b, CRLF, q) ensures QuietBlock(cfg, Reopened(s, b[q + 2..])) {
      assert (a + b)[|a|..] == b;
      OccursInSuffix(a + b, |a|, CRLF, |a| + q);
      assert (a + b)[|a| + q + 2..] == b[q + 2..];
    }
  }

  lemma QuietBlockRun(cfg: Config, s: State)
    requires s.phase == Headers && QuietBlock(cfg, s)
    ensures var o := Run(cfg, s);
            o.ok && o.state.phase == Headers && Observe(o) == Observation(s.parts, true, s.valid)
            && o == HeaderLines(cfg, s)
  {
    hide Find;
    hide ShortLines;
    ShortFirst(cfg, s);
    HeaderLinesShow(cfg, s);
    if s.pending == "" { FirstLineStays(cfg, s, ""); } else { RunStep(cfg, s); }
    hide HeaderLines;
  }

  lemma EntryOpens(cfg: Config, s: State)
    requires s.phase == NewEntry && s.pending != ""
    ensures Run(cfg, s) == Run(cfg, Reopened(s, s.pending))
  {
    RunStep(cfg, s);
    hide Run;
  }

  /** A quiet state shows nothing to the caller. */
  lemma QuietRun(cfg: Config, s: State)
    requires Wf(s) && Quiet(cfg, s)
    ensures Observe(Run(cfg, s)) == Observation(s.parts, true, s.valid || (s.phase == Boundary && DASH <= s.pending))
  {
    hide Run;
    hide QuietBlock;
    RunStep(cfg, s);
    var p := s.pending;
    match s.phase
    case Headers => QuietBlockRun(cfg, s);
    case NewEntry =>
      if p != "" {
        EntryOpens(cfg, s);
        QuietBlockRun(cfg, Reopened(s, p));
      }
    case Boundary =>
      if |p| >= 2 {
        if CRLF <= p {
          OccursAtFront(p, CRLF);
          assert p[0] == '\r';
          var entry := s.(phase := NewEntry, pending := p[2..]);
          QuietBlockRun(cfg, Reopened(s, p[2..]));
          if p[2..] != "" { EntryOpens(cfg, entry); }
          RunStep(cfg, entry);
        } else if DASH <= p {
          RunStep(cfg, s.(valid := true, pending := ""));
        }
      }
  }

  /** Quiet octets stay quiet when only some of them have been read. */
  lemma QuietBlockSplit(cfg: Config, s: State, b: string)
    requires s.phase == Headers && QuietBlock(cfg, Append(s, b))
    ensures QuietBlock(cfg, s) && QuietBlock(cfg, Append(Run(cfg, s).state, b)) && Run(cfg, s).state.phase == Headers
  {
    hide Find;
    hide HeaderLines;
    hide ShortLines;
    hide Run;
    HeadersSplit(cfg, s, b);
    HeaderLinesShow(cfg, s);
    ShortPrefix(cfg, s, b);
    QuietBlockRun(cfg, s);
  }

  lemma {:induction false} ShortPrefix(cfg: Config, s: State, b: string)
    requires s.phase == Headers && ShortLines(cfg, Append(s, b))
    ensures ShortLines(cfg, s)
    decreases |s.pending|
  {
    hide ApplyLine;
    hide Find;
    FragmentShort(cfg, s, b);
    var pos := Find(s.pending, CRLF);
    if pos < |s.pending| {
      LineStable(s.pending, b);
      if pos > 0 {
        var effect := ApplyLine(s.pending[..pos], s.file, cfg.decode);
        if effect.ok { ShortPrefix(cfg, s.(file := effect.file, pending := s.pending[pos + 2..]), b); }
      }
    }
  }

  lemma QuietSplit(cfg: Config, s: State, b: string)
    requires Wf(s) && s.valid && Quiet(cfg, Append(s, b))
    ensures var o := Run(cfg, s);
            o.ok && o.state.valid && o.state.parts == s.parts && Quiet(cfg, Append(o.state, b))
  {
    hide Run;
    hide QuietBlock;
    hide QuietEpilogue;
    RunStep(cfg, s);
    match s.phase
    case Headers =>
      QuietBlockSplit(cfg, s, b);
      QuietBlockRun(cfg, s);
    case NewEntry =>
      QuietEntrySplit(cfg, s, b);
    case Boundary =>
      QuietSame(cfg, Append(s, b), s, s.pending + b);
      QuietBoundarySplit(cfg, s, b);
  }

  lemma QuietEntrySplit(cfg: Config, s: State, b: string)
    requires s.phase == NewEntry && s.valid && QuietBlock(cfg, Reopened(s, s.pending + b))
    ensures var o := Run(cfg, s);
            o.ok && o.state.valid && o.state.parts == s.parts && Quiet(cfg, Append(o.state, b))
  {
    hide Run;
    hide QuietBlock;
    hide QuietEpilogue;
    RunStep(cfg, s);
    if s.pending != "" {
      var h := Reopened(s, s.pending);
      assert Append(h, b) == Reopened(s, s.pending + b);
      EntryOpens(cfg, s);
      QuietBlockSplit(cfg, h, b);
      QuietBlockRun(cfg, h);
    }
  }

  lemma QuietBoundarySplit(cfg: Config, s: State, b: string)
    requires s.phase == Boundary && s.valid && QuietEpilogue(cfg, s, s.pending + b)
    ensures var o := Run(cfg, s);
            o.ok && o.state.valid && o.state.parts == s.parts && Quiet(cfg, Append(o.state, b))
  {
    hide Run;
    hide QuietBlock;
    RunStep(cfg, s);
    var p := s.pending;
    if |p| >= 2 {
      assert (p + b)[..2] == p[..2] && (p + b)[2..] == p[2..] + b;
      if CRLF <= p {
        OccursAtFront(p + b, CRLF);
        var entry := s.(phase := NewEntry, pending := p[2..]);
        assert Reopened(entry, p[2..] + b) == Reopened(s, (p + b)[2..]);
        QuietEntrySplit(cfg, entry, b);
      } else if DASH <= p {
        var closed := s.(pending := "");
        RunStep(cfg, closed);
        EpilogueSuffix(cfg, s, p, b);
        QuietSame(cfg, s, closed, b);
        assert "" + b == b;
      }
    }
  }

  lemma QuietSame(cfg: Config, s: State, t: State, e: string)
    requires t == s.(pending := t.pending) && QuietEpilogue(cfg, s, e)
    ensures QuietEpilogue(cfg, Append(t, e), e) && QuietEpilogue(cfg, t, e)
  {
    hide QuietBlock;
    forall q | OccursAt(e, CRLF, q)
      ensures QuietBlock(cfg, Reopened(t, e[q + 2..])) && QuietBlock(cfg, Reopened(Append(t, e), e[q + 2..]))
    {
      assert Reopened(t, e[q + 2..]) == Reopened(s, e[q + 2..]) == Reopened(Append(t, e), e[q + 2..]);
    }
  }

  // ---------- One cut ----------

  /** Parsing `s.pending` and then `b` shows the caller what parsing both at once does. */
  ghost predicate SplitAgrees(cfg: Config, s: State, b: string)
    requires Wf(s)
  {
    var o := Run(cfg, s);
    var w := Run(cfg, Append(s, b));
    if o.ok then Tame(cfg, Append(o.state, b)) && Observe(w) == Observe(Run(cfg, Append(o.state, b)))
    else Observe(w) == Observe(o)
  }

  lemma QuietIsTame(cfg: Config, s: State)
    requires Wf(s) && s.valid && Quiet(cfg, s)
    ensures Tame(cfg, s)
  {
  }

  lemma SplitQuiet(cfg: Config, s: State, b: string)
    requires Wf(s) && s.valid && Tame(cfg, Append(s, b))
    ensures SplitAgrees(cfg, s, b)
  {
    hide Run;
    hide Quiet;
    if Append(s, b).pending == "" {
      RunStep(cfg, s);
      assert b == "" && Append(s, b) == s;
    } else {
      QuietSplit(cfg, s, b);
      QuietRun(cfg, Append(s, b));
      var v := Append(Run(cfg, s).state, b);
      QuietRun(cfg, v);
      QuietIsTame(cfg, v);
    }
  }

  /** The closing delimiter is in the first piece. */
  lemma SplitClosed(cfg: Config, s: State, b: string)
    requires s.phase == Boundary && !s.valid && DASH <= s.pending
    requires Tame(cfg, Append(s, b))
    ensures SplitAgrees(cfg, s, b)
  {
    hide Run;
    hide QuietEpilogue;
    var p := s.pending;
    var closed := s.(valid := true, pending := "");
    assert (p + b)[..2] == p[..2] && (p + b)[2..] == p[2..] + b;
    assert p[0] == '-' && (p + b)[0] == '-';
    assert Step(cfg, s) == Go(closed) && Step(cfg, Append(s, b)) == Go(closed);
    RunStep(cfg, s);
    RunStep(cfg, Append(s, b));
    RunStep(cfg, closed);
    EpilogueSuffix(cfg, Append(s, b).(valid := true), p[2..], b);
    QuietSame(cfg, Append(s, b).(valid := true), closed, b);
    assert Append(closed, b).pending == b;
    QuietRun(cfg, Append(closed, b));
    QuietIsTame(cfg, Append(closed, b));
  }

  lemma SplitStep(cfg: Config, s: State, b: string, t: State)
    requires Wf(s) && s.pending != "" && Step(cfg, s) == Go(t) && Step(cfg, Append(s, b)) == Go(Append(t, b))
    requires SplitAgrees(cfg, t, b)
    ensures SplitAgrees(cfg, s, b)
  {
    hide Run;
    hide Step;
    hide Tame;
    RunStep(cfg, s);
    RunStep(cfg, Append(s, b));
  }

  lemma SplitStays(cfg: Config, s: State, b: string)
    requires Wf(s) && Run(cfg, s) == Outcome(s, true) && Tame(cfg, Append(s, b))
    ensures SplitAgrees(cfg, s, b)
  {
    hide Run;
    hide Tame;
  }

  lemma {:induction false} SplitRun(cfg: Config, s: State, b: string)
    requires Wf(s) && TakesAll(cfg)
    requires Tame(cfg, Append(s, b))
    ensures SplitAgrees(cfg, s, b)
    decreases Measure(s)
  {
    hide Find;
    hide Tame;
    hide Run;
    hide SplitAgrees;
    hide Step;
    if s.valid {
      SplitQuiet(cfg, s, b);
    } else if s.pending == "" {
      RunStep(cfg, s);
      SplitStays(cfg, s, b);
    } else if s.phase == Boundary && DASH <= s.pending {
      SplitClosed(cfg, s, b);
    } else {
      SplitForward(cfg, s, b);
    }
  }

  /** The cases in which the parser goes on towards the end of the body. */
  lemma {:induction false} SplitForward(cfg: Config, s: State, b: string)
    requires Wf(s) && TakesAll(cfg) && s.pending != "" && !s.valid && !(s.phase == Boundary && DASH <= s.pending)
    requires Tame(cfg, Append(s, b))
    ensures SplitAgrees(cfg, s, b)
    decreases Measure(s), 1
  {
    hide Find;
    hide Tame;
    hide Run;
    hide SplitAgrees;
    hide HeaderStep;
    hide BodyStep;
    hide HeadersTame;
    var p := s.pending;
    var w := Append(s, b);
    var step := Step(cfg, s);
    RunStep(cfg, s);
    match s.phase
    case Preamble =>
      var d := DashBoundaryCrlf(cfg);
      if Find(p, d) < |p| {
        FindStable(p, b, d);
        assert (p + b)[Find(p, d) + |d|..] == p[Find(p, d) + |d|..] + b;
        TameStep(cfg, w);
        SplitRun(cfg, step.state, b);
        SplitStep(cfg, s, b, step.state);
      } else {
        SplitStays(cfg, s, b);
      }
    case NewEntry =>
      TameStep(cfg, w);
      SplitRun(cfg, step.state, b);
      SplitStep(cfg, s, b, step.state);
    case Headers =>
      SplitHeaders(cfg, s, b);
    case Body =>
      SplitBody(cfg, s, b);
    case Boundary =>
      if |p| >= 2 && CRLF <= p {
        assert (p + b)[..2] == p[..2] && (p + b)[2..] == p[2..] + b;
        assert (p + b)[0] == '\r';
        TameStep(cfg, w);
        SplitRun(cfg, step.state, b);
        SplitStep(cfg, s, b, step.state);
      } else {
        SplitStays(cfg, s, b);
      }
  }

  lemma {:induction false} SplitHeaders(cfg: Config, s: State, b: string)
    requires s.phase == Headers && TakesAll(cfg) && s.pending != "" && !s.valid
    requires Tame(cfg, Append(s, b))
    ensures SplitAgrees(cfg, s, b)
    decreases Measure(s), 0
  {
    hide Tame;
    hide Run;
    hide Step;
    HeaderStepSplit(cfg, s, b);
    RunStep(cfg, s);
    RunStep(cfg, Append(s, b));
    var step := Step(cfg, s);
    if step.Go? {
      TameStep(cfg, Append(s, b));
      SplitRun(cfg, step.state, b);
      SplitStep(cfg, s, b, step.state);
    }
  }

  lemma {:induction false} SplitBody(cfg: Config, s: State, b: string)
    requires s.phase == Body && Wf(s) && TakesAll(cfg) && s.pending != "" && !s.valid
    requires Tame(cfg, Append(s, b))
    ensures SplitAgrees(cfg, s, b)
    decreases Measure(s), 0
  {
    hide Tame;
    hide Run;
    hide Step;
    BodyStepSplit(cfg, s, b);
    RunStep(cfg, s);
    var w := Append(s, b);
    RunStep(cfg, w);
    TameStep(cfg, w);
    var step := Step(cfg, s);
    if step.Go? {
      SplitRun(cfg, step.state, b);
      SplitStep(cfg, s, b, step.state);
    } else {
      BodyKeepsValid(cfg, s);
      var v := Append(step.outcome.state, b);
      RunStep(cfg, v);
      TameStep(cfg, v);
    }
  }

  lemma BodyKeepsValid(cfg: Config, s: State)
    requires s.phase == Body && Wf(s) && s.pending != "" && Step(cfg, s).Halt? && Step(cfg, s).outcome.ok
    ensures Step(cfg, s).outcome.state.valid == s.valid
  {
    hide Find;
  }

  /** Chunk independence: for every way to cut a tame body, feeding the chunks one by one shows the caller the same
      parts, the same content and the same validity as parsing the whole body at once. */
  lemma {:induction false} ChunkIndependence(cfg: Config, s: State, chunks: seq<string>)
    requires Wf(s) && TakesAll(cfg) && chunks != []
    requires Tame(cfg, Append(s, Join(chunks)))
    ensures Observe(Feed(cfg, s, chunks)) == Observe(Run(cfg, Append(s, Join(chunks))))
    decreases |chunks|
  {
    hide Run;
    hide Tame;
    var first := Append(s, chunks[0]);
    var rest := chunks[1..];
    if rest == [] {
      assert Join(chunks) == chunks[0];
    } else {
      assert Append(s, Join(chunks)) == Append(first, Join(rest)) by {
        assert s.pending + (chunks[0] + Join(rest)) == s.pending + chunks[0] + Join(rest);
      }
      SplitRun(cfg, first, Join(rest));
      var o := Run(cfg, first);
      if o.ok { ChunkIndependence(cfg, o.state, rest); }
    }
  }
}
