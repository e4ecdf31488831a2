/** What `FormDataParser` computes, as a function of its abstract state. */
module FormDataSpec {
  import opened Text
  import opened PartHeader

  const HEADER_MAX_LENGTH: nat := 8192

  datatype Part = Part(file: FormData, content: string)

  /** The parser's parameters: the boundary, the percent-decoder of stored header values, and the verdicts of the
      two callbacks. `admit` sees the parts so far and the new part's headers, `take` the parts after the octets. */
  datatype Config = Config(
    boundary: string,
    decode: string -> string,
    admit: (seq<Part>, FormData) -> bool,
    take: seq<Part> -> bool)

  datatype Phase = Preamble | NewEntry | Headers | Body | Boundary

  /** `pending` is the unread part of the buffer; `parts` is what the callbacks have put together. */
  datatype State = State(phase: Phase, valid: bool, file: FormData, pending: string, parts: seq<Part>)

  /** The state after `parse` and the value it returns. */
  datatype Outcome = Outcome(state: State, ok: bool)

  datatype Progress = Halt(outcome: Outcome) | Go(state: State)

  const INITIAL := State(Preamble, false, NO_FILE, "", [])

  function DashBoundaryCrlf(cfg: Config): string { DASH + cfg.boundary + CRLF }

  function Delimiter(cfg: Config): string { CRLF + DASH + cfg.boundary }

  /** Content only ever arrives for a part that has been announced. */
  predicate Wf(s: State) { s.phase == Body ==> s.parts != [] }

  function AppendContent(parts: seq<Part>, data: string): (r: seq<Part>)
    requires parts != []
    ensures |r| == |parts|
  {
    var last := parts[|parts| - 1];
    parts[|parts| - 1 := last.(content := last.content + data)]
  }

  function Measure(s: State): nat {
    2 * |s.pending| + if s.phase == NewEntry then 1 else 0
  }

  /** The inner loop over header lines. */
  function HeaderLines(cfg: Config, s: State): (o: Outcome)
    requires s.phase == Headers
    ensures Wf(o.state)
    ensures o.state.phase == Headers || o.state.phase == Body
    ensures o.state.phase == Body ==> |o.state.pending| < |s.pending|
    decreases |s.pending|
  {
    var pos := Find(s.pending, CRLF);
    if pos == |s.pending| then Outcome(s, true)
    else
      var rest := s.pending[pos + 2..];
      if pos == 0 then
        if cfg.admit(s.parts, s.file)
        then Outcome(s.(phase := Body, pending := rest, parts := s.parts + [Part(s.file, "")]), true)
        else Outcome(s.(valid := false), false)
      else
        var effect := ApplyLine(s.pending[..pos], s.file, cfg.decode);
        if effect.ok then HeaderLines(cfg, s.(file := effect.file, pending := rest))
        else Outcome(s.(valid := false, file := effect.file), false)
  }

  /** One turn of the inner loop. */
  lemma HeaderLinesStep(cfg: Config, s: State)
    requires s.phase == Headers
    ensures var pos := Find(s.pending, CRLF);
            HeaderLines(cfg, s) ==
            if pos == |s.pending| then Outcome(s, true)
            else if pos == 0 then
              if cfg.admit(s.parts, s.file)
              then Outcome(s.(phase := Body, pending := s.pending[2..], parts := s.parts + [Part(s.file, "")]), true)
              else Outcome(s.(valid := false), false)
            else
              var effect := ApplyLine(s.pending[..pos], s.file, cfg.decode);
              if effect.ok then HeaderLines(cfg, s.(file := effect.file, pending := s.pending[pos + 2..]))
              else Outcome(s.(valid := false, file := effect.file), false)
  {
    hide ApplyLine;
    hide Find;
  }

  function HeaderStep(cfg: Config, s: State): Progress
    requires s.phase == Headers
  {
    if Find(s.pending, CRLF) > HEADER_MAX_LENGTH then Halt(Outcome(s, false))
    else
      var o := HeaderLines(cfg, s);
      if o.ok && o.state.phase == Body then Go(o.state) else Halt(o)
  }

  function BodyStep(cfg: Config, s: State): Progress
    requires s.phase == Body && Wf(s)
  {
    var d := Delimiter(cfg);
    if |d| > |s.pending| then Halt(Outcome(s, true))
    else
      var pos := Find(s.pending, d);
      if pos < |s.pending| then
        var t := s.(parts := AppendContent(s.parts, s.pending[..pos]));
        if cfg.take(t.parts) then Go(t.(phase := Boundary, pending := s.pending[pos + |d|..]))
        else Halt(Outcome(s.(valid := false), false))
      else
        var len := |s.pending| - |d|;
        if len == 0 then Halt(Outcome(s, true))
        else
          var t := s.(parts := AppendContent(s.parts, s.pending[..len]));
          if cfg.take(t.parts) then Halt(Outcome(t.(pending := s.pending[len..]), true))
          else Halt(Outcome(s.(valid := false), false))
  }

  function BoundaryStep(s: State): Progress
    requires s.phase == Boundary
  {
    if |s.pending| < 2 then Halt(Outcome(s, true))
    else if CRLF <= s.pending then Go(s.(phase := NewEntry, pending := s.pending[2..]))
    else if DASH <= s.pending then Go(s.(valid := true, pending := ""))
    else Halt(Outcome(s, true))
  }

  /** One turn of the outer loop. */
  function Step(cfg: Config, s: State): (p: Progress)
    requires Wf(s) && s.pending != ""
    ensures p.Go? ==> Wf(p.state) && Measure(p.state) < Measure(s)
    ensures p.Halt? ==> Wf(p.outcome.state)
  {
    match s.phase
    case Preamble =>
      var pos := Find(s.pending, DashBoundaryCrlf(cfg));
      if pos == |s.pending| then Halt(Outcome(s, true))
      else Go(s.(phase := NewEntry, pending := s.pending[pos + |DashBoundaryCrlf(cfg)|..]))
    case NewEntry => Go(s.(phase := Headers, file := NO_FILE))
    case Headers => HeaderStep(cfg, s)
    case Body => BodyStep(cfg, s)
    case Boundary => BoundaryStep(s)
  }

  /** `parse` on a buffer that already holds all of `s.pending`. */
  function Run(cfg: Config, s: State): (o: Outcome)
    requires Wf(s)
    ensures Wf(o.state)
    decreases Measure(s)
  {
    if s.pending == "" then Outcome(s, true)
    else
      match Step(cfg, s)
      case Halt(o) => o
      case Go(t) => Run(cfg, t)
  }

  /** One turn of the outer loop leads to the same outcome. */
  lemma RunStep(cfg: Config, s: State)
    requires Wf(s)
    ensures s.pending == "" ==> Run(cfg, s) == Outcome(s, true)
    ensures s.pending != "" && Step(cfg, s).Halt? ==> Run(cfg, s) == Step(cfg, s).outcome
    ensures s.pending != "" && Step(cfg, s).Go? ==> Run(cfg, s) == Run(cfg, Step(cfg, s).state)
  {
    hide Step;
  }

  /** Inside a part no more than one delimiter's length is held back; everything before it has been handed over. */
  lemma {:induction false} HeldBack(cfg: Config, s: State)
    requires Wf(s) && (s.pending == "" || Run(cfg, s).ok)
    ensures Run(cfg, s).ok && Run(cfg, s).state.phase == Body ==> |Run(cfg, s).state.pending| <= |Delimiter(cfg)|
    decreases Measure(s)
  {
    hide HeaderLines;
    hide Find;
    RunStep(cfg, s);
    if s.pending != "" && Step(cfg, s).Go? {
      hide Run;
      HeldBack(cfg, Step(cfg, s).state);
    }
  }

  function Append(s: State, chunk: string): State {
    s.(pending := s.pending + chunk)
  }

  /** Feeding chunks one by one; the caller stops at the first `false`. */
  function Feed(cfg: Config, s: State, chunks: seq<string>): (o: Outcome)
    requires Wf(s)
    ensures Wf(o.state)
    decreases |chunks|
  {
    if chunks == [] then Outcome(s, true)
    else
      var o := Run(cfg, Append(s, chunks[0]));
      if o.ok then Feed(cfg, o.state, chunks[1..]) else o
  }

  /** What a caller sees: the parts with their content, the last return value and `is_valid`. */
  datatype Observation = Observation(parts: seq<Part>, ok: bool, valid: bool)

  function Observe(o: Outcome): Observation {
    Observation(o.state.parts, o.ok, o.state.valid)
  }
}
