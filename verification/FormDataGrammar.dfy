/** What any multipart body of the grammar means (RFC 2046 section 5.1.1), whoever wrote it. */
module FormDataGrammar {
  import opened Text
  import opened PartHeader
  import opened FormDataSpec
  import opened FormDataChunks
  import opened FormDataRoundTrip
  import opened FormDataDependence
  import opened FormDataPlain

  /** The lines of a part one after the other; the first one that is refused ends the parsing. */
  function LinesEffect(lines: seq<string>, file: FormData, decode: string -> string): LineEffect
    decreases |lines|
  {
    if lines == [] then LineEffect(true, file)
    else
      var effect := ApplyLine(lines[0], file, decode);
      if effect.ok then LinesEffect(lines[1..], effect.file, decode) else effect
  }

  /** The parts that come out, up to the first whose header is malformed or not admitted. */
  function Meaning(cfg: Config, parts: seq<Part>, entries: seq<Entry>): Observation
    decreases |entries|
  {
    if entries == [] then Observation(parts, true, true)
    else
      var effect := LinesEffect(entries[0].lines, NO_FILE, cfg.decode);
      if !effect.ok || !cfg.admit(parts, effect.file) then Observation(parts, false, false)
      else Meaning(cfg, parts + [Part(effect.file, entries[0].content)], entries[1..])
  }

  lemma {:induction false} BlockMeans(cfg: Config, s: State, lines: seq<string>, rest: string)
    requires s.phase == Headers && s.pending == BlockText(lines) + rest
    requires forall j :: 0 <= j < |lines| ==> ShortLine(lines[j])
    ensures var effect := LinesEffect(lines, s.file, cfg.decode);
            var o := HeaderLines(cfg, s);
            if effect.ok && cfg.admit(s.parts, effect.file)
            then o == Outcome(s.(phase := Body, file := effect.file, pending := rest, parts := s.parts + [Part(effect.file, "")]), true)
            else !o.ok && !o.state.valid && o.state.parts == s.parts
    decreases |lines|
  {
    hide ApplyLine;
    hide HeaderLines;
    hide Find;
    HeaderLinesStep(cfg, s);
    if lines == [] {
      assert s.pending == "" + CRLF + rest;
      FirstCrlf("", rest);
      assert s.pending[2..] == rest;
    } else {
      var line, after := lines[0], BlockText(lines[1..]) + rest;
      assert s.pending == line + CRLF + after;
      FirstCrlf(line, after);
      assert s.pending[..|line|] == line && s.pending[|line| + 2..] == after;
      var effect := ApplyLine(line, s.file, cfg.decode);
      if effect.ok { BlockMeans(cfg, s.(file := effect.file, pending := after), lines[1..], rest); }
    }
  }

  lemma FirstLine(line: string, block: string, rest: string)
    requires '\r' !in line
    ensures Find(line + CRLF + block + rest, CRLF) == |line|
  {
    assert line + CRLF + block + rest == line + CRLF + (block + rest);
    FirstCrlf(line, block + rest);
  }

  lemma FirstLineShort(lines: seq<string>, rest: string)
    requires lines != [] ==> ShortLine(lines[0])
    ensures Find(BlockText(lines) + rest, CRLF) <= HEADER_MAX_LENGTH
  {
    hide Find;
    if lines == [] {
      FirstLine("", "", rest);
      assert "" + CRLF + "" == CRLF;
    } else {
      FirstLine(lines[0], BlockText(lines[1..]), rest);
    }
  }

  /** One part, from its headers to the text behind the delimiter that ends it. */
  lemma EntryMeans(cfg: Config, s: State, e: Entry, tail: string)
    requires s.phase == Headers && s.file == NO_FILE && !s.valid && TakesAll(cfg) && ValidBoundary(cfg.boundary)
    requires s.pending == BlockText(e.lines) + (e.content + Delimiter(cfg) + tail)
    requires FreeOf(e.content, Delimiter(cfg)) && forall j :: 0 <= j < |e.lines| ==> ShortLine(e.lines[j])
    ensures var effect := LinesEffect(e.lines, NO_FILE, cfg.decode);
            if effect.ok && cfg.admit(s.parts, effect.file)
            then Run(cfg, s) == Run(cfg, s.(phase := Boundary, file := effect.file, pending := tail,
                                            parts := s.parts + [Part(effect.file, e.content)]))
            else Observe(Run(cfg, s)) == Observation(s.parts, false, false)
  {
    hide LinesEffect;
    hide HeaderLines;
    hide Find;
    hide Delimiter;
    hide Run;
    var rest := e.content + Delimiter(cfg) + tail;
    var effect := LinesEffect(e.lines, NO_FILE, cfg.decode);
    BlockNotEmpty(e.lines);
    FirstLineShort(e.lines, rest);
    BlockMeans(cfg, s, e.lines, rest);
    RunStep(cfg, s);
    if effect.ok && cfg.admit(s.parts, effect.file) {
      var body := s.(phase := Body, file := effect.file, pending := rest, parts := s.parts + [Part(effect.file, "")]);
      assert Step(cfg, s) == Go(body);
      DelimiterAfterContent(cfg, e.content, tail);
      ContentRead(cfg, body, e.content, tail);
      DelimiterNonEmpty(cfg);
      hide Step;
      RunStep(cfg, body);
      assert rest[|e.content| + |Delimiter(cfg)|..] == tail && e.content[..|e.content|] == e.content;
      ContentAppended(s.parts, effect.file, e.content);
    }
  }

  lemma ContentAppended(parts: seq<Part>, file: FormData, content: string)
    ensures AppendContent(parts + [Part(file, "")], content) == parts + [Part(file, content)]
  {
    assert "" + content == content;
  }

  lemma {:induction false} EntriesMean(cfg: Config, s: State, entries: seq<Entry>, epilogue: string)
    requires s.phase == Boundary && !s.valid && TakesAll(cfg) && ValidBoundary(cfg.boundary)
    requires s.pending == EntriesText(entries, cfg.boundary, epilogue) && PlainEntries(entries, cfg.boundary)
    ensures Observe(Run(cfg, s)) == Meaning(cfg, s.parts, entries)
    decreases |entries|
  {
    hide Run;
    hide LinesEffect;
    hide Step;
    if entries == [] {
      ClosedWhole(cfg, s);
    } else {
      var e, tail := entries[0], EntriesText(entries[1..], cfg.boundary, epilogue);
      var block := BlockText(e.lines) + (e.content + Delimiter(cfg) + tail);
      assert s.pending == CRLF + block;
      PartOpens(cfg, s, block);
      var headers := s.(phase := Headers, file := NO_FILE, pending := block);
      EntryMeans(cfg, headers, e, tail);
      var effect := LinesEffect(e.lines, NO_FILE, cfg.decode);
      if effect.ok && cfg.admit(s.parts, effect.file) {
        var next := headers.(phase := Boundary, file := effect.file, pending := tail, parts := s.parts + [Part(effect.file, e.content)]);
        EntriesMean(cfg, next, entries[1..], epilogue);
      }
    }
  }

  /** Behind a boundary and a line end the headers of a new part begin. */
  lemma PartOpens(cfg: Config, s: State, block: string)
    requires s.phase == Boundary && s.pending == CRLF + block && block != ""
    ensures Run(cfg, s) == Run(cfg, s.(phase := Headers, file := NO_FILE, pending := block))
  {
    assert s.pending[0] == '\r' && s.pending[2..] == block && CRLF <= s.pending;
    var entry := s.(phase := NewEntry, pending := block);
    assert Step(cfg, s) == Go(entry);
    assert Step(cfg, entry) == Go(s.(phase := Headers, file := NO_FILE, pending := block));
    hide Step;
    RunStep(cfg, s);
    RunStep(cfg, entry);
  }

  /** Any body of the grammar: text before the first boundary and behind the closing one is ignored, every part has the
      header that its lines give one after the other and exactly its content, and the first line that is refused, or part
      that is not admitted, ends the parsing without the body becoming valid. */
  lemma BodyMeans(cfg: Config, preamble: string, entries: seq<Entry>, epilogue: string)
    requires TakesAll(cfg) && ValidBoundary(cfg.boundary) && entries != [] && PlainEntries(entries, cfg.boundary)
    requires Find(BodyText(preamble, entries, cfg.boundary, epilogue), DashBoundaryCrlf(cfg)) == |preamble|
    ensures Observe(Run(cfg, Append(INITIAL, BodyText(preamble, entries, cfg.boundary, epilogue)))) == Meaning(cfg, [], entries)
  {
    hide Run;
    hide Find;
    hide Meaning;
    var text := BodyText(preamble, entries, cfg.boundary, epilogue);
    var s := Append(INITIAL, text);
    var tail := EntriesText(entries, cfg.boundary, epilogue);
    BlockNotEmpty(entries[0].lines);
    assert CRLF <= tail && |tail| > 2;
    PreambleCut(preamble, cfg.boundary, tail);
    assert s.pending == text;
    var entry := INITIAL.(phase := NewEntry, pending := tail[2..]);
    assert Step(cfg, s) == Go(entry);
    var b := INITIAL.(phase := Boundary, pending := tail);
    assert tail == CRLF + tail[2..];
    PartOpens(cfg, b, tail[2..]);
    assert Step(cfg, entry) == Go(b.(phase := Headers, file := NO_FILE, pending := tail[2..]));
    hide Step;
    RunStep(cfg, s);
    RunStep(cfg, entry);
    EntriesMean(cfg, b, entries, epilogue);
  }

  /** The same for every way in which the body arrives, when nothing or a line end follows the closing boundary. */
  lemma BodyMeansInChunks(cfg: Config, preamble: string, entries: seq<Entry>, epilogue: string, chunks: seq<string>)
    requires TakesAll(cfg) && ValidBoundary(cfg.boundary) && entries != [] && PlainEntries(entries, cfg.boundary)
    requires epilogue == "" || epilogue == CRLF
    requires Find(BodyText(preamble, entries, cfg.boundary, epilogue), DashBoundaryCrlf(cfg)) == |preamble|
    requires chunks != [] && Join(chunks) == BodyText(preamble, entries, cfg.boundary, epilogue)
    ensures Observe(Feed(cfg, INITIAL, chunks)) == Meaning(cfg, [], entries)
  {
    hide Run;
    hide Tame;
    hide Find;
    hide Meaning;
    BodyMeans(cfg, preamble, entries, epilogue);
    PlainIsTame(cfg, preamble, entries, epilogue);
    ChunkIndependence(cfg, INITIAL, chunks);
  }
}
