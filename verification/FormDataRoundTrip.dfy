/** Parsing what the serializer wrote gives the items back, under any chunking. */
module FormDataRoundTrip {
  import opened Text
  import opened FieldLine
  import opened PartHeader
  import opened FormDataSpec
  import opened FormDataChunks
  import opened FormDataSerializing
  import opened FormDataHeaders

  /** `is_multipart_boundary_chars_valid` */
  predicate ValidBoundary(boundary: string) {
    forall i :: 0 <= i < |boundary| ==> IsAlnum(boundary[i]) || boundary[i] == '-' || boundary[i] == '_'
  }

  /** The header callback accepts at least the first `n` parts (the server accepts 1024). */
  ghost predicate AdmitsUpTo(cfg: Config, n: nat) {
    forall parts, file :: |parts| < n ==> cfg.admit(parts, file)
  }

  ghost predicate CleanItems(items: seq<Item>) {
    forall i :: 0 <= i < |items| ==> CleanItem(items[i])
  }

  /** The content does not hold the delimiter. */
  predicate FreeOf(content: string, delimiter: string) {
    Find(content, delimiter) == |content|
  }

  ghost predicate ContentsFree(items: seq<Item>, delimiter: string) {
    forall i :: 0 <= i < |items| ==> FreeOf(items[i].content, delimiter)
  }

  ghost function ExpectedPart(cfg: Config, item: Item): Part {
    Part(ExpectedFile(item, cfg.decode), item.content)
  }

  ghost function ExpectedParts(cfg: Config, items: seq<Item>): seq<Part> {
    seq(|items|, i requires 0 <= i < |items| => ExpectedPart(cfg, items[i]))
  }

  // ---------- The serialized text, read from the front ----------

  /** What follows `--boundary` when `items` are still to come. */
  ghost function Tail(items: seq<Item>, boundary: string): string {
    if items == [] then DASH + CRLF
    else CRLF + HeaderBlock(items[0]) + items[0].content + CRLF + DASH + boundary + Tail(items[1..], boundary)
  }

  lemma {:induction false} ItemTextsCons(items: seq<Item>, boundary: string)
    requires items != []
    ensures ItemTexts(items, boundary) == ItemText(items[0], boundary) + ItemTexts(items[1..], boundary)
  {
    hide ItemText;
    var last := |items| - 1;
    if last > 0 {
      var front := items[..last];
      assert front[1..] == items[1..][..last - 1];
      ItemTextsCons(front, boundary);
      assert ItemTexts(items[1..], boundary)
          == ItemTexts(front[1..], boundary) + ItemText(items[last], boundary);
    } else {
      assert items[..last] == [] && items[1..] == [];
    }
  }

  lemma {:induction false} SerializedIsTail(items: seq<Item>, boundary: string)
    ensures Serialized(items, boundary) == DASH + boundary + Tail(items, boundary)
  {
    hide HeaderBlock;
    if items == [] {
      assert Serialized(items, boundary) == DASH + boundary + (DASH + CRLF);
    } else {
      SerializedIsTail(items[1..], boundary);
      ItemTextsCons(items, boundary);
      var block := HeaderBlock(items[0]);
      var content := items[0].content;
      var texts := ItemTexts(items[1..], boundary);
      var tail := Tail(items[1..], boundary);
      assert texts + (DASH + boundary + DASH + CRLF) == DASH + boundary + tail;
      ItemFirst(boundary, block, content, texts, tail);
    }
  }

  lemma ItemFirst(boundary: string, block: string, content: string, texts: string, tail: string)
    requires texts + (DASH + boundary + DASH + CRLF) == DASH + boundary + tail
    ensures (DASH + boundary + CRLF + block + content + CRLF) + texts + DASH + boundary + DASH + CRLF
         == DASH + boundary + (CRLF + block + content + CRLF + DASH + boundary + tail)
  {
    var item := DASH + boundary + CRLF + block + content + CRLF;
    assert item + texts + DASH + boundary + DASH + CRLF == item + (texts + (DASH + boundary + DASH + CRLF));
    assert item + (DASH + boundary + tail)
        == DASH + boundary + (CRLF + block + content + CRLF + DASH + boundary + tail);
  }

  // ---------- First occurrences ----------

  /** The delimiter cannot overlap itself: its only carriage return is its first octet. */
  lemma DelimiterBorderFree(cfg: Config, k: nat)
    requires ValidBoundary(cfg.boundary) && 0 < k < |Delimiter(cfg)|
    ensures Delimiter(cfg)[0] == '\r' && Delimiter(cfg)[k] != '\r'
  {
  }

  /** So in free content followed by the delimiter, the first match is at the end of the content. */
  lemma DelimiterAfterContent(cfg: Config, content: string, rest: string)
    requires ValidBoundary(cfg.boundary) && FreeOf(content, Delimiter(cfg))
    ensures Find(content + Delimiter(cfg) + rest, Delimiter(cfg)) == |content|
  {
    hide Delimiter;
    var d := Delimiter(cfg);
    DelimiterNonEmpty(cfg);
    var s := content + d + rest;
    forall j | 0 <= j < |content| ensures !OccursAt(s, d, j) {
      if j + |d| <= |content| {
        assert s == content + (d + rest);
        OccursInPrefix(content, d + rest, d, j);
      } else {
        var k := |content| - j;
        DelimiterBorderFree(cfg, k);
        assert s[j..j + |d|][k] == s[|content|] == d[0];
      }
    }
    assert s[|content|..|content| + |d|] == d;
    FindIs(s, d, |content|);
  }

  // ---------- One item ----------

  lemma LinesHaveNoCr(item: Item)
    requires CleanItem(item)
    ensures '\r' !in DispositionLine(item) && '\r' !in TypeLine(item)
    ensures DispositionLine(item) != "" && TypeLine(item) != ""
  {
    hide Parameters;
    ParametersText(item);
    var p := Parameters(item);
    assert forall i :: 0 <= i < |p| ==> p[i] != '\r';
    var t := item.contentType;
    assert forall i :: 0 <= i < |t| ==> t[i] != '\r';
  }

  lemma HeaderLineStep(cfg: Config, s: State, line: string, rest: string, file: FormData)
    requires s.phase == Headers && s.pending == line + CRLF + rest
    requires line != "" && '\r' !in line && |line| < HEADER_MAX_LENGTH
    requires ApplyLine(line, s.file, cfg.decode) == LineEffect(true, file)
    ensures Find(s.pending, CRLF) == |line|
    ensures HeaderLines(cfg, s) == HeaderLines(cfg, s.(file := file, pending := rest))
    ensures ShortLines(cfg, s) == ShortLines(cfg, s.(file := file, pending := rest))
  {
    hide ApplyLine;
    FirstCrlf(line, rest);
    assert s.pending[..|line|] == line && s.pending[|line| + 2..] == rest;
  }

  lemma EmptyLineStep(cfg: Config, s: State, rest: string)
    requires s.phase == Headers && s.pending == CRLF + rest
    requires cfg.admit(s.parts, s.file)
    ensures HeaderLines(cfg, s)
         == Outcome(s.(phase := Body, pending := rest, parts := s.parts + [Part(s.file, "")]), true)
    ensures ShortLines(cfg, s)
  {
    hide ApplyLine;
    assert s.pending == "" + CRLF + rest;
    FirstCrlf("", rest);
    assert s.pending[2..] == rest;
  }

  /** The header block of an item is read as one entry, and the body starts right behind it. */
  lemma HeaderBlockRead(cfg: Config, s: State, item: Item, rest: string)
    requires s.phase == Headers && s.file == NO_FILE && s.pending == HeaderBlock(item) + rest
    requires CleanItem(item) && cfg.admit(s.parts, ExpectedFile(item, cfg.decode))
    ensures var file := ExpectedFile(item, cfg.decode);
            Step(cfg, s) == Go(s.(phase := Body, file := file, pending := rest, parts := s.parts + [Part(file, "")]))
    ensures ShortLines(cfg, s)
  {
    hide ApplyLine;
    hide HeaderLines;
    hide ShortLines;
    hide DispositionLine;
    hide TypeLine;
    hide DispositionField;
    hide TypeField;
    LinesHaveNoCr(item);
    DispositionApplied(item, cfg.decode);
    var after := if item.contentType == "" then CRLF + rest else TypeLine(item) + CRLF + (CRLF + rest);
    assert s.pending == DispositionLine(item) + CRLF + after;
    var named := FormData(item.name, item.filename, "", [DispositionField(item, cfg.decode)]);
    HeaderLineStep(cfg, s, DispositionLine(item), after, named);
    var t := s.(file := named, pending := after);
    if item.contentType == "" {
      assert named == ExpectedFile(item, cfg.decode);
      EmptyLineStep(cfg, t, rest);
    } else {
      TypeApplied(item, named, cfg.decode);
      var file := ExpectedFile(item, cfg.decode);
      HeaderLineStep(cfg, t, TypeLine(item), CRLF + rest, file);
      EmptyLineStep(cfg, t.(file := file, pending := CRLF + rest), rest);
    }
  }

  /** The content up to the first delimiter is handed over and the delimiter is skipped. */
  lemma ContentRead(cfg: Config, s: State, content: string, tail: string)
    requires s.phase == Body && Wf(s) && TakesAll(cfg)
    requires s.pending == content + Delimiter(cfg) + tail
    requires Find(s.pending, Delimiter(cfg)) <= |content|
    ensures var q := Find(s.pending, Delimiter(cfg));
            && s.pending[..q] == content[..q]
            && Step(cfg, s) == Go(s.(phase := Boundary, parts := AppendContent(s.parts, content[..q]),
                                     pending := s.pending[q + |Delimiter(cfg)|..]))
  {
    hide Delimiter;
    hide Find;
    hide AppendContent;
    DelimiterNonEmpty(cfg);
    var q := Find(s.pending, Delimiter(cfg));
    assert s.pending[..q] == content[..q];
  }

  lemma Unfold(cfg: Config, s: State, t: State)
    requires Wf(s) && s.pending != "" && Step(cfg, s) == Go(t)
    ensures Wf(t) && Run(cfg, s) == Run(cfg, t)
    ensures (!s.valid && (s.phase == Headers ==> ShortLines(cfg, s)) && (s.phase == Boundary ==> CRLF <= s.pending)
             && Tame(cfg, t)) ==> Tame(cfg, s)
  {
    hide Step;
    hide ShortLines;
    hide HeaderLines;
    hide Find;
    hide Tame;
    RunStep(cfg, s);
    assert CRLF <= s.pending ==> s.pending[0] == '\r';
    if !s.valid && (s.phase == Boundary ==> CRLF <= s.pending) { TameStep(cfg, s); }
  }

  /** The state with which the body of the first item starts, coming from behind a delimiter. */
  ghost function Announced(cfg: Config, s: State, item: Item, rest: string): State {
    var file := ExpectedFile(item, cfg.decode);
    s.(phase := Body, file := file, pending := rest, parts := s.parts + [Part(file, "")])
  }

  lemma EntryRead(cfg: Config, s: State, item: Item, rest: string)
    requires s.phase == Boundary && s.pending == CRLF + (HeaderBlock(item) + rest)
    requires CleanItem(item) && AdmitsUpTo(cfg, |s.parts| + 1)
    ensures Run(cfg, s) == Run(cfg, Announced(cfg, s, item, rest))
    ensures !s.valid && Tame(cfg, Announced(cfg, s, item, rest)) ==> Tame(cfg, s)
  {
    hide HeaderBlock;
    hide HeaderStep;
    hide ExpectedFile;
    var block := HeaderBlock(item) + rest;
    assert s.pending[2..] == block && CRLF <= s.pending;
    var entry := s.(phase := NewEntry, pending := block);
    var headers := entry.(phase := Headers, file := NO_FILE);
    BlockNonEmpty(item);
    Unfold(cfg, s, entry);
    Unfold(cfg, entry, headers);
    HeaderBlockRead(cfg, headers, item, rest);
    Unfold(cfg, headers, Announced(cfg, s, item, rest));
  }

  lemma BlockNonEmpty(item: Item)
    ensures HeaderBlock(item) != ""
  {
  }

  /** The state behind the delimiter that ends a free content. */
  ghost function ItemDone(cfg: Config, s: State, item: Item, tail: string): State {
    s.(phase := Boundary, file := ExpectedFile(item, cfg.decode), pending := tail,
       parts := s.parts + [ExpectedPart(cfg, item)])
  }

  lemma ItemRead(cfg: Config, s: State, items: seq<Item>)
    requires s.phase == Boundary && items != [] && s.pending == Tail(items, cfg.boundary)
    requires TakesAll(cfg) && AdmitsUpTo(cfg, |s.parts| + 1) && ValidBoundary(cfg.boundary)
    requires CleanItem(items[0]) && FreeOf(items[0].content, Delimiter(cfg))
    ensures var t := ItemDone(cfg, s, items[0], Tail(items[1..], cfg.boundary));
            Run(cfg, s) == Run(cfg, t) && (!s.valid && Tame(cfg, t) ==> Tame(cfg, s))
  {
    hide HeaderBlock;
    hide ExpectedFile;
    hide Step;
    var item := items[0];
    var tail := Tail(items[1..], cfg.boundary);
    var rest := item.content + Delimiter(cfg) + tail;
    TailCons(items, cfg);
    EntryRead(cfg, s, item, rest);
    var body := Announced(cfg, s, item, rest);
    DelimiterAfterContent(cfg, item.content, tail);
    ContentRead(cfg, body, item.content, tail);
    AnnouncedContent(cfg, s, item);
    assert rest[|item.content| + |Delimiter(cfg)|..] == tail;
    assert item.content[..|item.content|] == item.content;
    Unfold(cfg, body, ItemDone(cfg, s, item, tail));
  }

  lemma TailCons(items: seq<Item>, cfg: Config)
    requires items != []
    ensures Tail(items, cfg.boundary)
         == CRLF + (HeaderBlock(items[0]) + (items[0].content + Delimiter(cfg) + Tail(items[1..], cfg.boundary)))
  {
    hide HeaderBlock;
  }

  lemma AnnouncedContent(cfg: Config, s: State, item: Item)
    ensures AppendContent(s.parts + [Part(ExpectedFile(item, cfg.decode), "")], item.content)
         == s.parts + [ExpectedPart(cfg, item)]
  {
    hide ExpectedFile;
    assert "" + item.content == item.content;
  }

  lemma ClosingRead(cfg: Config, s: State)
    requires s.phase == Boundary && s.pending == DASH + CRLF
    ensures Observe(Run(cfg, s)) == Observation(s.parts, true, true)
    ensures !s.valid ==> Tame(cfg, s)
  {
    assert s.pending[2..] == CRLF;
    assert DASH <= s.pending;
    assert s.pending[0] == '-';
    forall q | OccursAt(CRLF, CRLF, q) ensures QuietBlock(cfg, Reopened(s.(valid := true), CRLF[q + 2..])) {
      assert q == 0 && CRLF[2..] == "";
    }
  }

  lemma {:induction false} TailRead(cfg: Config, s: State, items: seq<Item>)
    requires s.phase == Boundary && s.pending == Tail(items, cfg.boundary)
    requires TakesAll(cfg) && AdmitsUpTo(cfg, |s.parts| + |items|) && ValidBoundary(cfg.boundary)
    requires CleanItems(items) && ContentsFree(items, Delimiter(cfg))
    ensures Observe(Run(cfg, s)) == Observation(s.parts + ExpectedParts(cfg, items), true, true)
    ensures !s.valid ==> Tame(cfg, s)
    decreases |items|
  {
    hide Run;
    hide Tame;
    hide Tail;
    hide CleanItem;
    if items == [] {
      ClosingTail(cfg.boundary);
      ClosingRead(cfg, s);
      assert s.parts + ExpectedParts(cfg, items) == s.parts;
    } else {
      ItemRead(cfg, s, items);
      var t := ItemDone(cfg, s, items[0], Tail(items[1..], cfg.boundary));
      TailRead(cfg, t, items[1..]);
      assert ExpectedParts(cfg, items) == [ExpectedPart(cfg, items[0])] + ExpectedParts(cfg, items[1..]);
      AppendAssoc(s.parts, [ExpectedPart(cfg, items[0])], ExpectedParts(cfg, items[1..]));
    }
  }

  lemma ClosingTail(boundary: string)
    ensures Tail([], boundary) == DASH + CRLF
  {
  }

  /** The first boundary line is at the very front of the body. */
  lemma FirstBoundary(cfg: Config, s: State, items: seq<Item>)
    requires s.phase == Boundary && items != [] && s.pending == Tail(items, cfg.boundary)
    requires s.parts == [] && !s.valid && s.file == NO_FILE
    requires AdmitsUpTo(cfg, 1)
    ensures var body := Append(INITIAL, Serialized(items, cfg.boundary));
            Run(cfg, body) == Run(cfg, s) && (Tame(cfg, s) ==> Tame(cfg, body))
  {
    hide HeaderBlock;
    hide HeaderStep;
    hide Find;
    hide Tail;
    hide Serialized;
    SerializedIsTail(items, cfg.boundary);
    TailCons(items, cfg);
    var rest := HeaderBlock(items[0]) + (items[0].content + Delimiter(cfg) + Tail(items[1..], cfg.boundary));
    var body := Append(INITIAL, Serialized(items, cfg.boundary));
    var d := DashBoundaryCrlf(cfg);
    assert body.pending == d + rest;
    FindAtFront(d, rest);
    assert s.pending[2..] == rest && CRLF <= s.pending;
    var entry := s.(phase := NewEntry, pending := rest);
    BlockNonEmpty(items[0]);
    Unfold(cfg, body, entry);
    Unfold(cfg, s, entry);
    hide Tame;
    assert s.pending[0] == '\r';
    TameStep(cfg, s);
  }

  /** Round trip: whatever the chunks, the parser ends valid with exactly the items that were serialized. */
  lemma RoundTrip(cfg: Config, items: seq<Item>, chunks: seq<string>)
    requires TakesAll(cfg) && AdmitsUpTo(cfg, |items|) && ValidBoundary(cfg.boundary)
    requires items != [] && CleanItems(items) && ContentsFree(items, Delimiter(cfg))
    requires chunks != [] && Join(chunks) == Serialized(items, cfg.boundary)
    ensures Observe(Feed(cfg, INITIAL, chunks)) == Observation(ExpectedParts(cfg, items), true, true)
  {
    hide Run;
    hide Tame;
    hide Tail;
    hide Serialized;
    var s := State(Boundary, false, NO_FILE, Tail(items, cfg.boundary), []);
    FirstBoundary(cfg, s, items);
    TailRead(cfg, s, items);
    assert [] + ExpectedParts(cfg, items) == ExpectedParts(cfg, items);
    var body := Serialized(items, cfg.boundary);
    assert INITIAL.pending + body == body;
    ChunkIndependence(cfg, INITIAL, chunks);
  }

  // ---------- Exactly when it holds ----------

  /** Parts that are complete never change any more. */
  ghost predicate Keeps(parts: seq<Part>, phase: Phase, later: seq<Part>) {
    |parts| <= |later|
    && forall i :: 0 <= i < |parts| - (if phase == Body then 1 else 0) ==> later[i] == parts[i]
  }

  lemma StepKeeps(cfg: Config, s: State)
    requires Wf(s) && s.pending != ""
    ensures var p := Step(cfg, s);
            && (p.Halt? ==> Keeps(s.parts, s.phase, p.outcome.state.parts))
            && (p.Go? ==> Keeps(s.parts, s.phase, p.state.parts)
                          && (p.state.phase == Body ==> |p.state.parts| == |s.parts| + 1))
  {
    hide HeaderLines;
    hide Find;
    if s.phase == Headers { HeaderLinesShow(cfg, s); }
  }

  lemma {:induction false} RunKeeps(cfg: Config, s: State)
    requires Wf(s)
    ensures Keeps(s.parts, s.phase, Run(cfg, s).state.parts)
    decreases Measure(s)
  {
    hide Step;
    if s.pending != "" {
      StepKeeps(cfg, s);
      match Step(cfg, s)
      case Halt(_) =>
      case Go(t) => RunKeeps(cfg, t);
    }
  }

  /** A content that holds the delimiter is cut at its first occurrence. */
  lemma BrokenContent(cfg: Config, s: State, content: string, tail: string)
    requires s.phase == Body && Wf(s) && TakesAll(cfg)
    requires s.parts[|s.parts| - 1].content == ""
    requires s.pending == content + Delimiter(cfg) + tail && !FreeOf(content, Delimiter(cfg))
    ensures var r := Run(cfg, s).state.parts;
            |r| >= |s.parts| && |r[|s.parts| - 1].content| < |content|
  {
    hide Step;
    hide Delimiter;
    hide Find;
    DelimiterNonEmpty(cfg);
    var d := Delimiter(cfg);
    FindStable(content, d + tail, d);
    assert s.pending == content + (d + tail);
    var q := Find(s.pending, d);
    ContentRead(cfg, s, content, tail);
    var t := s.(phase := Boundary, parts := AppendContent(s.parts, content[..q]), pending := s.pending[q + |d|..]);
    Unfold(cfg, s, t);
    RunKeeps(cfg, t);
  }

  lemma BrokenItem(cfg: Config, s: State, items: seq<Item>)
    requires s.phase == Boundary && items != [] && s.pending == Tail(items, cfg.boundary)
    requires TakesAll(cfg) && AdmitsUpTo(cfg, |s.parts| + 1)
    requires CleanItem(items[0]) && !FreeOf(items[0].content, Delimiter(cfg))
    ensures var r := Run(cfg, s).state.parts;
            |r| > |s.parts| && |r[|s.parts|].content| < |items[0].content|
  {
    hide HeaderBlock;
    hide ExpectedFile;
    hide Step;
    hide Run;
    hide Tame;
    hide Delimiter;
    hide CleanItem;
    var item := items[0];
    var tail := Tail(items[1..], cfg.boundary);
    var rest := item.content + Delimiter(cfg) + tail;
    TailCons(items, cfg);
    EntryRead(cfg, s, item, rest);
    BrokenContent(cfg, Announced(cfg, s, item, rest), item.content, tail);
  }

  lemma {:induction false} BrokenTail(cfg: Config, s: State, items: seq<Item>)
    requires s.phase == Boundary && s.pending == Tail(items, cfg.boundary)
    requires TakesAll(cfg) && AdmitsUpTo(cfg, |s.parts| + |items|) && ValidBoundary(cfg.boundary)
    requires CleanItems(items) && !ContentsFree(items, Delimiter(cfg))
    ensures Run(cfg, s).state.parts != s.parts + ExpectedParts(cfg, items)
    decreases |items|
  {
    hide Run;
    hide Tail;
    hide CleanItem;
    hide FreeOf;
    if FreeOf(items[0].content, Delimiter(cfg)) {
      ItemRead(cfg, s, items);
      var t := ItemDone(cfg, s, items[0], Tail(items[1..], cfg.boundary));
      assert !ContentsFree(items[1..], Delimiter(cfg)) by {
        var i :| 0 <= i < |items| && !FreeOf(items[i].content, Delimiter(cfg));
        assert items[1..][i - 1] == items[i];
      }
      BrokenTail(cfg, t, items[1..]);
      assert ExpectedParts(cfg, items) == [ExpectedPart(cfg, items[0])] + ExpectedParts(cfg, items[1..]);
      AppendAssoc(s.parts, [ExpectedPart(cfg, items[0])], ExpectedParts(cfg, items[1..]));
    } else {
      BrokenItem(cfg, s, items);
    }
  }

  /** A body without items is never valid: only the closing delimiter could make it so, and it is behind no boundary. */
  lemma NoItems(cfg: Config)
    ensures !Observe(Run(cfg, Append(INITIAL, Serialized([], cfg.boundary)))).valid
  {
    hide HeaderStep;
    hide BodyStep;
    hide BoundaryStep;
    hide Find;
    var s := Append(INITIAL, Serialized([], cfg.boundary));
    var b := cfg.boundary;
    var d := DashBoundaryCrlf(cfg);
    NoItemsText(b);
    var pos := Find(s.pending, d);
    if pos < |s.pending| {
      assert s.pending[pos..pos + |d|][|b| + 2] == d[|b| + 2] == '\r';
      assert s.pending[pos + |d|..] == "";
      var t := s.(phase := NewEntry, pending := "");
      assert Step(cfg, s) == Go(t);
    }
  }

  lemma NoItemsText(b: string)
    ensures var s := INITIAL.pending + Serialized([], b);
            |s| == |b| + 6 && s[|b| + 2] == '-' && s[|b| + 3] == '-'
  {
  }

  /** The round trip succeeds exactly when there is an item and no content holds the delimiter. */
  lemma RoundTripIff(cfg: Config, items: seq<Item>)
    requires TakesAll(cfg) && AdmitsUpTo(cfg, |items|) && ValidBoundary(cfg.boundary) && CleanItems(items)
    ensures Observe(Run(cfg, Append(INITIAL, Serialized(items, cfg.boundary))))
            == Observation(ExpectedParts(cfg, items), true, true)
       <==> items != [] && ContentsFree(items, Delimiter(cfg))
  {
    hide Run;
    hide Tame;
    hide Tail;
    hide Serialized;
    if items == [] {
      NoItems(cfg);
    } else {
      var s := State(Boundary, false, NO_FILE, Tail(items, cfg.boundary), []);
      FirstBoundary(cfg, s, items);
      assert [] + ExpectedParts(cfg, items) == ExpectedParts(cfg, items);
      if ContentsFree(items, Delimiter(cfg)) {
        TailRead(cfg, s, items);
      } else {
        BrokenTail(cfg, s, items);
      }
    }
  }
}
