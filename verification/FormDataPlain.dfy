/** Multipart bodies written down part by part: which of them are tame, and two that are not. */
module FormDataPlain {
  import opened Text
  import opened FieldLine
  import opened PartHeader
  import opened FormDataSpec
  import opened FormDataChunks
  import opened FormDataRoundTrip
  import opened FormDataDependence

  /** The header lines of a part and its content. */
  datatype Entry = Entry(lines: seq<string>, content: string)

  function BlockText(lines: seq<string>): string
    decreases |lines|
  {
    if lines == [] then CRLF else lines[0] + CRLF + BlockText(lines[1..])
  }

  /** What follows `--boundary`. */
  function EntriesText(entries: seq<Entry>, boundary: string, epilogue: string): string
    decreases |entries|
  {
    if entries == [] then DASH + epilogue
    else
      CRLF + (BlockText(entries[0].lines) + (entries[0].content + (CRLF + DASH + boundary) + EntriesText(entries[1..], boundary, epilogue)))
  }

  function BodyText(preamble: string, entries: seq<Entry>, boundary: string, epilogue: string): string {
    preamble + (DASH + boundary + EntriesText(entries, boundary, epilogue))
  }

  predicate ShortLine(line: string) { line != "" && '\r' !in line && |line| < HEADER_MAX_LENGTH }

  ghost predicate PlainEntries(entries: seq<Entry>, boundary: string) {
    forall i :: 0 <= i < |entries| ==>
      FreeOf(entries[i].content, CRLF + DASH + boundary)
      && forall j :: 0 <= j < |entries[i].lines| ==> ShortLine(entries[i].lines[j])
  }

  // ---------- Tame bodies ----------

  /** A block of short lines, whatever they say: it is read up to its end or refused. */
  lemma {:induction false} PlainBlock(cfg: Config, s: State, lines: seq<string>, rest: string)
    requires s.phase == Headers && s.pending == BlockText(lines) + rest
    requires forall j :: 0 <= j < |lines| ==> ShortLine(lines[j])
    ensures ShortLines(cfg, s)
    ensures HeaderLines(cfg, s).ok ==> HeaderLines(cfg, s).state.phase == Body && HeaderLines(cfg, s).state.pending == rest
    decreases |lines|
  {
    hide ApplyLine;
    hide HeaderLines;
    hide Find;
    HeaderLinesStep(cfg, s);
    if lines == [] {
      assert s.pending == "" + CRLF + rest;
      FirstCrlf("", rest);
      assert s.pending[2..] == rest;
    } else {
      var line, after := lines[0], BlockText(lines[1..]) + rest;
      assert s.pending == line + CRLF + after;
      FirstCrlf(line, after);
      assert s.pending[..|line|] == line && s.pending[|line| + 2..] == after;
      var effect := ApplyLine(line, s.file, cfg.decode);
      if effect.ok { PlainBlock(cfg, s.(file := effect.file, pending := after), lines[1..], rest); }
    }
  }

  lemma BlockNotEmpty(lines: seq<string>)
    ensures BlockText(lines) != ""
  {
  }

  lemma ClosingTame(cfg: Config, s: State, epilogue: string)
    requires s.phase == Boundary && !s.valid && s.pending == DASH + epilogue && (epilogue == "" || epilogue == CRLF)
    ensures Tame(cfg, s)
  {
    assert s.pending[2..] == epilogue;
    forall q | OccursAt(epilogue, CRLF, q) ensures QuietBlock(cfg, Reopened(s.(valid := true), epilogue[q + 2..])) {
      assert q == 0 && epilogue[2..] == "";
    }
  }

  /** One part: if what follows its content is tame, so is all. */
  lemma EntryTame(cfg: Config, s: State, lines: seq<string>, content: string, tail: string)
    requires s.phase == Headers && !s.valid && TakesAll(cfg) && ValidBoundary(cfg.boundary)
    requires s.pending == BlockText(lines) + (content + Delimiter(cfg) + tail)
    requires FreeOf(content, Delimiter(cfg)) && forall j :: 0 <= j < |lines| ==> ShortLine(lines[j])
    requires forall t: State :: t.phase == Boundary && !t.valid && t.pending == tail ==> Tame(cfg, t)
    ensures Tame(cfg, s)
  {
    hide Tame;
    hide HeaderLines;
    hide ShortLines;
    hide Find;
    hide Delimiter;
    var rest := content + Delimiter(cfg) + tail;
    BlockNotEmpty(lines);
    PlainBlock(cfg, s, lines, rest);
    HeaderLinesShow(cfg, s);
    TameStep(cfg, s);
    if Step(cfg, s).Go? {
      var body := Step(cfg, s).state;
      assert body.phase == Body && body.pending == rest && !body.valid;
      DelimiterAfterContent(cfg, content, tail);
      ContentRead(cfg, body, content, tail);
      hide Step;
      DelimiterNonEmpty(cfg);
      var next := Step(cfg, body).state;
      assert rest[|content| + |Delimiter(cfg)|..] == tail;
      assert next.phase == Boundary && !next.valid && next.pending == tail;
      TameStep(cfg, body);
    }
  }

  lemma {:induction false} EntriesTame(cfg: Config, s: State, entries: seq<Entry>, epilogue: string)
    requires s.phase == Boundary && !s.valid && TakesAll(cfg) && ValidBoundary(cfg.boundary)
    requires s.pending == EntriesText(entries, cfg.boundary, epilogue) && (epilogue == "" || epilogue == CRLF)
    requires PlainEntries(entries, cfg.boundary)
    ensures Tame(cfg, s)
    decreases |entries|
  {
    hide Tame;
    if entries == [] {
      ClosingTame(cfg, s, epilogue);
    } else {
      var e, tail := entries[0], EntriesText(entries[1..], cfg.boundary, epilogue);
      var block := BlockText(e.lines) + (e.content + Delimiter(cfg) + tail);
      assert s.pending == CRLF + block && s.pending[2..] == block && s.pending[0] == '\r';
      BlockNotEmpty(e.lines);
      var entry := s.(phase := NewEntry, pending := block);
      var headers := Reopened(entry, block);
      forall t: State | t.phase == Boundary && !t.valid && t.pending == tail ensures Tame(cfg, t) {
        EntriesTame(cfg, t, entries[1..], epilogue);
      }
      EntryTame(cfg, headers, e.lines, e.content, tail);
      assert Step(cfg, s) == Go(entry);
      assert Step(cfg, entry) == Go(headers);
      hide Step;
      TameStep(cfg, entry);
      TameStep(cfg, s);
    }
  }

  /** With header lines below the limit, contents without the delimiter, and nothing or a line end behind the closing
      delimiter, a body is tame, so that it is parsed alike however it is cut. */
  lemma PlainIsTame(cfg: Config, preamble: string, entries: seq<Entry>, epilogue: string)
    requires TakesAll(cfg) && ValidBoundary(cfg.boundary) && entries != []
    requires PlainEntries(entries, cfg.boundary) && (epilogue == "" || epilogue == CRLF)
    requires Find(BodyText(preamble, entries, cfg.boundary, epilogue), DashBoundaryCrlf(cfg)) == |preamble|
    ensures Tame(cfg, Append(INITIAL, BodyText(preamble, entries, cfg.boundary, epilogue)))
  {
    hide Tame;
    hide Find;
    var text := BodyText(preamble, entries, cfg.boundary, epilogue);
    var s := Append(INITIAL, text);
    var b := INITIAL.(phase := Boundary, pending := EntriesText(entries, cfg.boundary, epilogue));
    EntriesTame(cfg, b, entries, epilogue);
    assert b.pending[0] == '\r' && CRLF <= b.pending;
    var block := b.pending[2..];
    var entry := b.(phase := NewEntry, pending := block);
    TameStep(cfg, b);
    assert Step(cfg, b) == Go(entry);
    PreambleCut(preamble, cfg.boundary, b.pending);
    assert s.pending == text;
    assert Step(cfg, s) == Go(entry);
    TameStep(cfg, s);
  }

  lemma PreambleCut(preamble: string, boundary: string, tail: string)
    requires CRLF <= tail
    ensures var text := preamble + (DASH + boundary + tail);
            var skip := |preamble| + |DASH + boundary + CRLF|;
            skip <= |text| && text[skip..] == tail[2..] && |preamble| < |text|
  {
    var text := preamble + (DASH + boundary + tail);
    assert tail == CRLF + tail[2..];
    assert text == preamble + (DASH + boundary + CRLF) + tail[2..];
  }

  // ---------- Two bodies that are not tame ----------

  /** The first boundary line leads to the headers of the first part. */
  lemma FirstPart(cfg: Config, x: string)
    ensures var d := DashBoundaryCrlf(cfg);
            && Run(cfg, Append(INITIAL, d)) == Outcome(INITIAL.(phase := NewEntry), true)
            && (x != "" ==> Run(cfg, Append(INITIAL, d + x)) == Run(cfg, INITIAL.(phase := Headers, pending := x)))
  {
    hide Find;
    var d := DashBoundaryCrlf(cfg);
    FindAtFront(d, x);
    FindAtFront(d, "");
    assert d + "" == d && d[|d|..] == "";
    var s, w := Append(INITIAL, d), Append(INITIAL, d + x);
    assert s.pending == d && w.pending == d + x;
    var entry := INITIAL.(phase := NewEntry);
    assert Step(cfg, s) == Go(entry);
    assert Step(cfg, w) == Go(entry.(pending := x));
    hide Step;
    RunStep(cfg, s);
    RunStep(cfg, entry);
    RunStep(cfg, w);
    if x != "" { EntryOpens(cfg, entry.(pending := x)); }
  }

  /** An empty content and the closing delimiter. */
  lemma EmptyContentCloses(cfg: Config, s: State, epilogue: string)
    requires s.phase == Body && Wf(s) && TakesAll(cfg) && s.pending == Delimiter(cfg) + (DASH + epilogue)
    ensures Observe(Run(cfg, s)) == Observation(s.parts, true, true)
  {
    hide Find;
    hide Delimiter;
    var d := Delimiter(cfg);
    DelimiterNonEmpty(cfg);
    FindAtFront(d, DASH + epilogue);
    var t := s.(phase := Boundary, pending := DASH + epilogue);
    assert s.pending[..0] == "";
    AppendNothing(s.parts);
    assert Step(cfg, s) == Go(t);
    hide Step;
    RunStep(cfg, s);
    ClosedWhole(cfg, t);
  }

  lemma AppendNothing(parts: seq<Part>)
    requires parts != []
    ensures AppendContent(parts, "") == parts
  {
    var last := parts[|parts| - 1];
    assert last.content + "" == last.content;
  }

  /** A field line of exactly the limit. */
  function LongField(): (line: string)
    ensures |line| == HEADER_MAX_LENGTH && '\r' !in line
  {
    "x:" + seq(HEADER_MAX_LENGTH - 2, _ => 'a')
  }

  lemma LongFieldOk(decode: string -> string)
    ensures ApplyLine(LongField(), NO_FILE, decode).ok
  {
    var line := LongField();
    var value := seq(HEADER_MAX_LENGTH - 2, _ => 'a');
    assert line[0] == 'x' && line[1] == ':' && line[|line| - 1] == 'a' && line[2] == 'a';
    assert line[..1] == "x" && line[2..|line|] == value;
    ParseFieldAt(line, decode, |line|, 1, 2);
    assert ToLower(line[0]) == 'x';
    assert !StartsIgnoringCase(line, CONTENT_TYPE) by { assert ToLower(CONTENT_TYPE[0]) == 'c'; }
    assert !StartsIgnoringCase(line, CONTENT_DISPOSITION) by { assert ToLower(CONTENT_DISPOSITION[0]) == 'c'; }
  }

  /** The block of that line alone, as the parser reads it whole. */
  lemma LongBlockRead(cfg: Config, rest: string)
    requires cfg.admit([], ApplyLine(LongField(), NO_FILE, cfg.decode).file)
    ensures var file := ApplyLine(LongField(), NO_FILE, cfg.decode).file;
            Run(cfg, INITIAL.(phase := Headers, pending := LongField() + CRLF + (CRLF + rest))) ==
            Run(cfg, INITIAL.(phase := Body, file := file, pending := rest, parts := [Part(file, "")]))
  {
    LongFieldOk(cfg.decode);
    hide ApplyLine;
    hide HeaderLines;
    var line := LongField();
    hide LongField;
    var file := ApplyLine(line, NO_FILE, cfg.decode).file;
    var s := INITIAL.(phase := Headers, pending := line + CRLF + (CRLF + rest));
    FirstCrlf(line, CRLF + rest);
    assert s.pending[..|line|] == line && s.pending[|line| + 2..] == CRLF + rest;
    HeaderLinesStep(cfg, s);
    var t := s.(file := file, pending := CRLF + rest);
    assert t.pending == "" + CRLF + rest && t.pending[2..] == rest;
    FirstCrlf("", rest);
    HeaderLinesStep(cfg, t);
    hide Find;
    var body := INITIAL.(phase := Body, file := file, pending := rest, parts := [Part(file, "")]);
    assert t.parts + [Part(file, "")] == [Part(file, "")];
    assert Step(cfg, s) == Go(body);
    hide Step;
    RunStep(cfg, s);
  }

  /** A complete body with one part, whose header line has exactly the limit: valid as a whole, refused when the last
      octet of that line arrives later. */
  lemma LongLineDependsOnChunks(cfg: Config)
    requires TakesAll(cfg) && AdmitsUpTo(cfg, 1)
    ensures var d, line := DashBoundaryCrlf(cfg), LongField();
            var rest := CRLF + (Delimiter(cfg) + (DASH + CRLF));
            var body := d + (line + CRLF + rest);
            && Join([d, line + "\r", "\n" + rest]) == body
            && Observe(Run(cfg, Append(INITIAL, body))).valid
            && !Observe(Feed(cfg, INITIAL, [d, line + "\r", "\n" + rest])).ok
  {
    hide Run;
    hide Delimiter;
    var d, line := DashBoundaryCrlf(cfg), LongField();
    var after := Delimiter(cfg) + (DASH + CRLF);
    var rest := CRLF + after;
    hide LongField;
    hide DashBoundaryCrlf;
    FirstPart(cfg, line + CRLF + rest);
    LongBlockRead(cfg, after);
    var file := ApplyLine(line, NO_FILE, cfg.decode).file;
    hide ApplyLine;
    EmptyContentCloses(cfg, INITIAL.(phase := Body, file := file, pending := after, parts := [Part(file, "")]), CRLF);
    LongCutRefused(cfg, line, "\n" + rest);
    JoinCons(d, [line + "\r", "\n" + rest]);
    JoinTwo(line + "\r", "\n" + rest);
    assert [d] + [line + "\r", "\n" + rest] == [d, line + "\r", "\n" + rest];
    assert line + "\r" + ("\n" + rest) == line + CRLF + rest;
  }

  lemma LongCutRefused(cfg: Config, line: string, rest: string)
    requires |line| == HEADER_MAX_LENGTH && '\r' !in line
    ensures !Feed(cfg, INITIAL, [DashBoundaryCrlf(cfg), line + "\r", rest]).ok
  {
    hide Run;
    var d := DashBoundaryCrlf(cfg);
    FirstPart(cfg, "");
    hide DashBoundaryCrlf;
    var entry := INITIAL.(phase := NewEntry);
    var cut := [line + "\r", rest];
    assert [d, line + "\r", rest][1..] == cut;
    FeedEntry(cfg, entry, cut);
    NoCrlfYet(line);
    RefusedLine(cfg, Reopened(entry, ""), line + "\r");
  }

  /** A complete body with one empty part and an epilogue that goes on behind a line end: valid as a whole, refused when
      the epilogue arrives later. */
  lemma EpilogueDependsOnChunks(cfg: Config)
    requires TakesAll(cfg) && AdmitsUpTo(cfg, 1)
    ensures var first := DashBoundaryCrlf(cfg) + (CRLF + (Delimiter(cfg) + (DASH + "")));
            var body := DashBoundaryCrlf(cfg) + (CRLF + (Delimiter(cfg) + (DASH + "\r\nx\r\n")));
            && Join([first, "\r\nx\r\n"]) == body
            && Observe(Run(cfg, Append(INITIAL, body))).valid
            && !Observe(Feed(cfg, INITIAL, [first, "\r\nx\r\n"])).valid
  {
    hide Run;
    var d, delimiter := DashBoundaryCrlf(cfg), Delimiter(cfg);
    hide Delimiter;
    hide DashBoundaryCrlf;
    EmptyPart(cfg, DASH + "\r\nx\r\n");
    EmptyContentCloses(cfg, EmptyPartBody(cfg, DASH + "\r\nx\r\n"), "\r\nx\r\n");
    EmptyPart(cfg, DASH + "");
    var first := d + (CRLF + (delimiter + (DASH + "")));
    ClosedHere(cfg);
    var closed := Run(cfg, Append(INITIAL, first)).state;
    BadEpilogue(cfg, closed);
    assert [first, "\r\nx\r\n"][1..] == ["\r\nx\r\n"];
    JoinTwo(first, "\r\nx\r\n");
    assert DASH + "" + "\r\nx\r\n" == DASH + "\r\nx\r\n";
    assert first + "\r\nx\r\n" == d + (CRLF + (delimiter + (DASH + "" + "\r\nx\r\n")));
  }

  ghost function EmptyPartBody(cfg: Config, tail: string): (s: State)
    ensures Wf(s)
  {
    INITIAL.(phase := Body, pending := Delimiter(cfg) + tail, parts := [Part(NO_FILE, "")])
  }

  /** A part without any header line. */
  lemma EmptyPart(cfg: Config, tail: string)
    requires AdmitsUpTo(cfg, 1)
    ensures Run(cfg, Append(INITIAL, DashBoundaryCrlf(cfg) + (CRLF + (Delimiter(cfg) + tail)))) == Run(cfg, EmptyPartBody(cfg, tail))
  {
    hide ApplyLine;
    hide HeaderLines;
    var rest := Delimiter(cfg) + tail;
    hide Delimiter;
    FirstPart(cfg, CRLF + rest);
    hide DashBoundaryCrlf;
    var s := INITIAL.(phase := Headers, pending := CRLF + rest);
    assert s.pending == "" + CRLF + rest && s.pending[2..] == rest;
    FirstCrlf("", rest);
    HeaderLinesStep(cfg, s);
    hide Find;
    assert cfg.admit([], NO_FILE);
    assert [] + [Part(NO_FILE, "")] == [Part(NO_FILE, "")];
    assert Step(cfg, s) == Go(EmptyPartBody(cfg, tail));
    hide Step;
    RunStep(cfg, s);
  }

  /** Behind the closing delimiter the parser is where it was behind any delimiter. */
  lemma ClosedHere(cfg: Config)
    requires TakesAll(cfg)
    ensures var o := Run(cfg, EmptyPartBody(cfg, DASH + ""));
            o.ok && o.state.phase == Boundary && o.state.pending == ""
  {
    hide Find;
    var s := EmptyPartBody(cfg, DASH + "");
    hide Delimiter;
    var d := Delimiter(cfg);
    DelimiterNonEmpty(cfg);
    FindAtFront(d, DASH + "");
    assert s.pending[..0] == "";
    AppendNothing(s.parts);
    var t := s.(phase := Boundary, pending := DASH);
    assert DASH + "" == DASH && DASH[0] == '-';
    var closed := t.(valid := true, pending := "");
    assert Step(cfg, s) == Go(t);
    assert Step(cfg, t) == Go(closed);
    hide Step;
    RunStep(cfg, s);
    RunStep(cfg, t);
    RunStep(cfg, closed);
  }

  lemma BadEpilogue(cfg: Config, s: State)
    requires s.phase == Boundary && s.pending == ""
    ensures Run(cfg, Append(s, "\r\nx\r\n")).state.valid == false
    ensures Run(cfg, Append(s, "\r\nx\r\n")).ok == false
  {
    var text := "\r\nx\r\n";
    assert Append(s, text).pending == text && CRLF <= text && text[2..] == "x\r\n";
    var entry := s.(phase := NewEntry, pending := "x\r\n");
    assert Step(cfg, Append(s, text)) == Go(entry);
    var headers := entry.(phase := Headers, file := NO_FILE);
    assert Step(cfg, entry) == Go(headers);
    assert "x" + CRLF + "" == "x\r\n";
    FirstCrlf("x", "");
    assert ("x" + CRLF)[..1] == "x";
    HeaderLinesStep(cfg, headers);
    NoColon(cfg);
    assert Step(cfg, headers) == Halt(Outcome(headers.(valid := false), false));
    assert Run(cfg, headers) == Run(cfg, entry) == Run(cfg, Append(s, text));
  }

  lemma NoColon(cfg: Config)
    ensures ApplyLine("x", NO_FILE, cfg.decode) == LineEffect(false, NO_FILE)
  {
    assert BackBlanks("x", 1) == 1;
    assert TrimRight("x") == "x";
    assert IndexOf("x", ':') == 1;
  }
}
