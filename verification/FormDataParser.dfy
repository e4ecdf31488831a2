/** `FormDataParser`: the streaming multipart/form-data parser over its sliding buffer. */
module FormDataParsing {
  import opened Text
  import opened FieldLine
  import opened PartHeader
  import opened FormDataSpec

  /** The callbacks of `Server::read_content`: a new entry per header, content appended to the current entry. */
  class Collector {
    var parts: seq<Part>
    const admit: (seq<Part>, FormData) -> bool
    const take: seq<Part> -> bool

    constructor (admit: (seq<Part>, FormData) -> bool, take: seq<Part> -> bool)
      ensures parts == [] && this.admit == admit && this.take == take
    {
      parts := [];
      this.admit := admit;
      this.take := take;
    }

    method OnHeader(file: FormData) returns (ok: bool)
      modifies this
      ensures ok == admit(old(parts), file)
      ensures parts == old(parts) + if ok then [Part(file, "")] else []
    {
      ok := admit(parts, file);
      if ok { parts := parts + [Part(file, "")]; }
    }

    method OnContent(data: string) returns (ok: bool)
      requires parts != []
      modifies this
      ensures ok == take(AppendContent(old(parts), data))
      ensures parts == if ok then AppendContent(old(parts), data) else old(parts)
    {
      var longer := AppendContent(parts, data);
      ok := take(longer);
      if ok { parts := longer; }
    }
  }

  class FormDataParser {
    const boundary: string
    const dashBoundaryCrlf: string
    const crlfDashBoundary: string
    const decode: string -> string

    var phase: Phase
    var isValid: bool
    var file: FormData

    var buf: array<char>
    var spos: nat
    var epos: nat

    ghost predicate Valid()
      reads this
    {
      && spos <= epos <= buf.Length
      && dashBoundaryCrlf == DASH + boundary + CRLF
      && crlfDashBoundary == CRLF + DASH + boundary
    }

    ghost function Pending(): string
      requires Valid()
      reads this, buf
    {
      buf[spos..epos]
    }

    ghost function Cfg(c: Collector): Config {
      Config(boundary, decode, c.admit, c.take)
    }

    ghost function Abs(c: Collector): State
      requires Valid()
      reads this, buf, c
    {
      State(phase, isValid, file, Pending(), c.parts)
    }

    constructor (boundary: string, decode: string -> string)
      ensures Valid() && fresh(buf)
      ensures this.boundary == boundary && this.decode == decode
      ensures forall c: Collector :: c.parts == [] ==> Abs(c) == INITIAL
    {
      this.boundary := boundary;
      this.decode := decode;
      dashBoundaryCrlf := DASH + boundary + CRLF;
      crlfDashBoundary := CRLF + DASH + boundary;
      phase, isValid, file := Preamble, false, NO_FILE;
      buf := new char[0];
      spos, epos := 0, 0;
    }

    // ---------- Buffer ----------

    function BufSize(): (n: nat)
      requires Valid()
      reads this, buf
      ensures n == |Pending()|
    {
      epos - spos
    }

    /** `resize` to a larger size keeps the contents. */
    method Grow(n: nat)
      requires Valid() && n >= buf.Length
      modifies this`buf
      ensures Valid() && buf.Length == n && fresh(buf)
      ensures Pending() == old(Pending())
    {
      var bigger := new char[n];
      forall i | 0 <= i < buf.Length { bigger[i] := buf[i]; }
      buf := bigger;
    }

    /** Slides the unread octets to the front. */
    method Compact()
      requires Valid()
      modifies this`spos, this`epos, buf
      ensures Valid() && spos == 0
      ensures Pending() == old(Pending())
    {
      var remaining := BufSize();
      ghost var pending := Pending();
      if remaining > 0 && spos > 0 {
        ghost var before := buf[..];
        for i := 0 to remaining
          modifies buf
          invariant forall j :: 0 <= j < i ==> buf[j] == before[spos + j]
          invariant forall j :: i <= j < buf.Length ==> buf[j] == before[j]
        {
          buf[i] := buf[spos + i];
        }
        assert forall j :: 0 <= j < remaining ==> pending[j] == before[spos + j];
      }
      spos, epos := 0, remaining;
    }

    /** Writes the new octets behind the unread ones; the buffer is large enough. */
    method CopyIn(data: string)
      requires Valid() && spos == 0 && epos + |data| <= buf.Length
      modifies this`epos, buf
      ensures Valid()
      ensures Pending() == old(Pending()) + data
    {
      ghost var pending := Pending();
      for i := 0 to |data|
        modifies buf
        invariant forall j :: 0 <= j < epos ==> buf[j] == pending[j]
        invariant forall j :: 0 <= j < i ==> buf[epos + j] == data[j]
      {
        buf[epos + i] := data[i];
      }
      ghost var all := pending + data;
      assert forall j :: 0 <= j < |all| ==> buf[j] == all[j] by {
        assert forall j :: epos <= j < |all| ==> all[j] == data[j - epos] == buf[epos + (j - epos)];
      }
      epos := epos + |data|;
      assert buf[spos..epos] == all;
    }

    method BufAppend(data: string)
      requires Valid()
      modifies this`buf, this`spos, this`epos, buf
      ensures Valid() && (buf == old(buf) || fresh(buf))
      ensures Pending() == old(Pending()) + data
    {
      Compact();
      if epos + |data| > buf.Length { Grow(epos + |data|); }
      CopyIn(data);
    }

    method BufErase(size: nat)
      requires Valid() && size <= epos - spos
      modifies this`spos
      ensures Valid()
      ensures Pending() == old(Pending())[size..]
    {
      spos := spos + size;
    }

    /** `buf_head`, and the octets that `buf_data` points to. */
    method BufHead(len: nat) returns (s: string)
      requires Valid() && len <= epos - spos
      ensures s == Pending()[..len]
    {
      s := buf[spos..spos + len];
      assert forall i :: 0 <= i < len ==> s[i] == Pending()[i];
    }

    method StartWith(from: nat, pat: string) returns (r: bool)
      requires Valid() && spos <= from <= epos
      ensures r == OccursAt(Pending(), pat, from - spos)
    {
      if epos - from < |pat| { return false; }
      OccursAtIff(Pending(), pat, from - spos);
      for i := 0 to |pat|
        invariant forall j :: 0 <= j < i ==> Pending()[from - spos + j] == pat[j]
      {
        assert Pending()[from - spos + i] == buf[i + from];
        if buf[i + from] != pat[i] { return false; }
      }
      return true;
    }

    method BufStartWith(pat: string) returns (r: bool)
      requires Valid()
      ensures r == (pat <= Pending())
    {
      r := StartWith(spos, pat);
      OccursAtFront(Pending(), pat);
    }

    /** `buf_find`: scans for the first octet of the pattern, then compares the rest. */
    method BufFind(pat: string) returns (r: nat)
      requires Valid() && pat != ""
      ensures r == Find(Pending(), pat)
    {
      hide Find;
      var off := spos;
      while off < epos
        invariant spos <= off <= epos
        invariant forall j :: 0 <= j < off - spos ==> !OccursAt(Pending(), pat, j)
      {
        var pos := off;
        while pos < epos && buf[pos] != pat[0]
          invariant off <= pos <= epos
          invariant forall j :: 0 <= j < pos - spos ==> !OccursAt(Pending(), pat, j)
        {
          assert Pending()[pos - spos] != pat[0];
          pos := pos + 1;
        }
        if pos == epos {
          FindIs(Pending(), pat, |Pending()|);
          return epos - spos;
        }
        if |pat| > epos - pos {
          FindIs(Pending(), pat, |Pending()|);
          return epos - spos;
        }
        var here := StartWith(pos, pat);
        if here {
          FindIs(Pending(), pat, pos - spos);
          return pos - spos;
        }
        off := pos + 1;
      }
      FindIs(Pending(), pat, |Pending()|);
      return epos - spos;
    }

    // ---------- Parsing ----------

    method HeaderLine(line: string) returns (ok: bool)
      requires Valid()
      modifies this`file
      ensures LineEffect(ok, file) == ApplyLine(line, old(file), decode)
    {
      hide DispositionParams;
      var field := ParseHeader(line, decode);
      if field.None? { return false; }
      file := file.(headers := file.headers + [field.value]);
      var isType := StartWithCaseIgnore(line, CONTENT_TYPE);
      if isType {
        file := file.(contentType := Trim(line[|CONTENT_TYPE|..]));
        return true;
      }
      var m := MatchDisposition(line);
      if m.None? { return true; }
      var params := ParseDispositionParams(m.value);
      var name := Lookup(params, "name");
      if name.None? { return false; }
      file := file.(name := name.value);
      var filename := Lookup(params, "filename");
      if filename.Some? { file := file.(filename := filename.value); }
      var extended := Lookup(params, "filename*");
      if extended.Some? {
        if StartsIgnoringCase(extended.value, UTF8_QUOTES) && |extended.value| > |UTF8_QUOTES| {
          file := file.(filename := decode(extended.value[|UTF8_QUOTES|..]));
        } else {
          return false;
        }
      }
      return true;
    }

    /** State 0: everything before the first boundary line is dropped. */
    method ParsePreamble(c: Collector) returns (more: bool, ok: bool)
      requires Valid() && phase == Preamble && Pending() != ""
      modifies this`phase, this`spos
      ensures Valid()
      ensures Step(Cfg(c), old(Abs(c))) == if more then Go(Abs(c)) else Halt(Outcome(Abs(c), ok))
    {
      hide Find;
      hide HeaderStep;
      hide BodyStep;
      hide BoundaryStep;
      var pos := BufFind(dashBoundaryCrlf);
      if pos == BufSize() { return false, true; }
      BufErase(pos + |dashBoundaryCrlf|);
      phase := NewEntry;
      return true, true;
    }

    /** State 1: a new entry starts with an empty record. */
    method ClearFileInfo(c: Collector) returns (more: bool, ok: bool)
      requires Valid() && phase == NewEntry && Pending() != ""
      modifies this`phase, this`file
      ensures Valid() && more
      ensures Step(Cfg(c), old(Abs(c))) == Go(Abs(c))
    {
      file := NO_FILE;
      phase := Headers;
      return true, true;
    }

    /** State 2: header lines up to the empty one. `more` means the body follows. */
    method ParseHeaders(c: Collector) returns (more: bool, ok: bool)
      requires Valid() && phase == Headers && Pending() != ""
      modifies this`phase, this`isValid, this`file, this`spos, c
      ensures Valid()
      ensures Step(Cfg(c), old(Abs(c))) == if more then Go(Abs(c)) else Halt(Outcome(Abs(c), ok))
    {
      hide ApplyLine;
      hide Find;
      hide HeaderLines;
      hide BodyStep;
      hide BoundaryStep;
      ghost var cfg := Cfg(c);
      ghost var start := Abs(c);
      var pos := BufFind(CRLF);
      if pos > HEADER_MAX_LENGTH { return false, false; }
      ghost var goal := HeaderLines(cfg, start);
      while pos < BufSize()
        invariant Valid() && phase == Headers
        invariant pos == Find(Pending(), CRLF)
        invariant HeaderLines(cfg, Abs(c)) == goal
        decreases epos - spos
      {
        var next, done := HeaderEntry(c, pos);
        if !next { return phase == Body, done; }
        pos := BufFind(CRLF);
      }
      HeaderLinesStep(cfg, Abs(c));
      return false, true;
    }

    /** One line of the inner loop: the empty line announces the part, any other one is parsed. */
    method HeaderEntry(c: Collector, pos: nat) returns (next: bool, ok: bool)
      requires Valid() && phase == Headers && pos == Find(Pending(), CRLF) < |Pending()|
      modifies this`phase, this`isValid, this`file, this`spos, c
      ensures Valid()
      ensures next ==> phase == Headers && epos - spos < old(epos - spos)
                       && HeaderLines(Cfg(c), old(Abs(c))) == HeaderLines(Cfg(c), Abs(c))
      ensures !next ==> HeaderLines(Cfg(c), old(Abs(c))) == Outcome(Abs(c), ok) && (ok <==> phase == Body)
    {
      hide ApplyLine;
      hide Find;
      hide HeaderLines;
      HeaderLinesStep(Cfg(c), Abs(c));
      if pos == 0 {
        var accepted := c.OnHeader(file);
        if !accepted {
          isValid := false;
          return false, false;
        }
        BufErase(2);
        phase := Body;
        return false, true;
      }
      var line := BufHead(pos);
      var good := HeaderLine(line);
      if !good {
        isValid := false;
        return false, false;
      }
      BufErase(pos + 2);
      return true, true;
    }

    /** State 3: content up to the next delimiter, keeping back what may be the start of one. */
    method ParseBody(c: Collector) returns (more: bool, ok: bool)
      requires Valid() && phase == Body && Wf(Abs(c)) && Pending() != ""
      modifies this`phase, this`isValid, this`spos, c
      ensures Valid()
      ensures Step(Cfg(c), old(Abs(c))) == if more then Go(Abs(c)) else Halt(Outcome(Abs(c), ok))
    {
      hide Find;
      hide AppendContent;
      hide HeaderStep;
      hide BoundaryStep;
      if |crlfDashBoundary| > BufSize() { return false, true; }
      var pos := BufFind(crlfDashBoundary);
      if pos < BufSize() {
        var content := BufHead(pos);
        var taken := c.OnContent(content);
        if !taken {
          isValid := false;
          return false, false;
        }
        BufErase(pos + |crlfDashBoundary|);
        phase := Boundary;
        return true, true;
      }
      var len := BufSize() - |crlfDashBoundary|;
      if len > 0 {
        var content := BufHead(len);
        var taken := c.OnContent(content);
        if !taken {
          isValid := false;
          return false, false;
        }
        BufErase(len);
      }
      return false, true;
    }

    /** State 4: what follows a delimiter. */
    method ParseBoundary(c: Collector) returns (more: bool, ok: bool)
      requires Valid() && phase == Boundary && Pending() != ""
      modifies this`phase, this`isValid, this`spos
      ensures Valid()
      ensures Step(Cfg(c), old(Abs(c))) == if more then Go(Abs(c)) else Halt(Outcome(Abs(c), ok))
    {
      hide HeaderStep;
      hide BodyStep;
      if 2 > BufSize() { return false, true; }
      var crlf := BufStartWith(CRLF);
      if crlf {
        BufErase(2);
        phase := NewEntry;
        return true, true;
      }
      var dash := BufStartWith(DASH);
      if dash {
        BufErase(2);
        isValid := true;
        BufErase(BufSize());
        assert Pending() == "";
        return true, true;
      }
      return false, true;
    }

    /** Appends a chunk and runs the machine until it needs more octets or a callback or header fails. */
    method Parse(data: string, c: Collector) returns (ok: bool)
      requires Valid() && Wf(Abs(c))
      modifies this, buf, c
      ensures Valid() && (buf == old(buf) || fresh(buf))
      ensures Outcome(Abs(c), ok) == Run(Cfg(c), Append(old(Abs(c)), data))
      ensures Wf(Abs(c))
    {
      hide Step;
      hide Run;
      ghost var cfg := Cfg(c);
      ghost var start := Append(Abs(c), data);
      BufAppend(data);
      assert Abs(c) == start;
      ghost var goal := Run(cfg, start);
      while BufSize() > 0
        invariant Valid() && Wf(Abs(c)) && (buf == old(buf) || fresh(buf))
        invariant Run(cfg, Abs(c)) == goal
        decreases Measure(Abs(c))
      {
        RunStep(cfg, Abs(c));
        var more;
        match phase {
          case Preamble => more, ok := ParsePreamble(c);
          case NewEntry => more, ok := ClearFileInfo(c);
          case Headers => more, ok := ParseHeaders(c);
          case Body => more, ok := ParseBody(c);
          case Boundary => more, ok := ParseBoundary(c);
        }
        if !more { return; }
      }
      RunStep(cfg, Abs(c));
      return true;
    }
  }
}
