/** `stream_line_reader`: lines of any length over a fixed buffer that gives way to a growing one. */
module LineReader {
  import opened Text
  import opened Streams

  predicate EndsWithCrlf(s: string) {
    |s| >= 2 && s[|s| - 2] == '\r' && s[|s| - 1] == '\n'
  }

  /** The value of `getline`, the content it leaves and the octets still to read. */
  datatype Line = Line(ok: bool, text: string, rest: string)

  /** `getline` as a function of the octets to come, with `acc` already read. */
  function LineFrom(acc: string, view: string, end: End): (l: Line)
    ensures l.ok ==> acc <= l.text && |l.text| - |acc| + |l.rest| == |view|
    ensures l.ok && acc == "" ==> |l.rest| < |view|
    decreases |view|
  {
    if |acc| >= MAX_LINE_LENGTH then Line(false, acc, view)
    else if view == "" then Line(end == Orderly && acc != "", acc, "")
    else
      var next := acc + [view[0]];
      if EndsWithCrlf(next) then Line(true, next, view[1..]) else LineFrom(next, view[1..], end)
  }

  /** The line ends at the first CRLF, if that comes within the length limit. */
  lemma {:induction false} LineIs(acc: string, text: string, rest: string, end: End)
    requires |acc| + |text| + 2 <= MAX_LINE_LENGTH
    requires '\r' !in acc && '\r' !in text
    ensures LineFrom(acc, text + CRLF + rest, end) == Line(true, acc + text + CRLF, rest)
    decreases |text|
  {
    var view := text + CRLF + rest;
    if text == "" {
      var one := acc + ['\r'];
      assert view[1..] == "\n" + rest;
      assert acc + [view[0]] == one && !EndsWithCrlf(one);
      assert one + ["\n"[0]] == acc + text + CRLF;
      assert view[1..][1..] == rest;
      assert LineFrom(one, view[1..], end) == Line(true, acc + text + CRLF, rest);
    } else {
      var next := acc + [text[0]];
      assert view[1..] == text[1..] + CRLF + rest;
      assert next + text[1..] + CRLF == acc + text + CRLF;
      LineIs(next, text[1..], rest, end);
    }
  }

  /** What a line is, for all octets: up to the first CRLF if it ends within the limit; a failure after as many octets as
      the limit allows; otherwise all there is, which is a line only at an orderly end. */
  function FirstLine(view: string, end: End): Line {
    var p := Find(view, CRLF);
    if p < |view| && p + 2 <= MAX_LINE_LENGTH then Line(true, view[..p + 2], view[p + 2..])
    else if |view| >= MAX_LINE_LENGTH then Line(false, view[..MAX_LINE_LENGTH], view[MAX_LINE_LENGTH..])
    else Line(end == Orderly && view != "", view, "")
  }

  lemma {:induction false} LineMeansFrom(acc: string, view: string, end: End)
    requires |acc| <= MAX_LINE_LENGTH
    requires forall j :: 0 <= j <= |acc| - 2 ==> !OccursAt(acc + view, CRLF, j)
    ensures LineFrom(acc, view, end) == FirstLine(acc + view, end)
    decreases |view|
  {
    hide Find;
    hide OccursAt;
    var all := acc + view;
    LineStep(acc, view, end);
    FirstCrlfAt(acc, view);
    if |acc| >= MAX_LINE_LENGTH {
      assert all[..MAX_LINE_LENGTH] == acc && all[MAX_LINE_LENGTH..] == view;
    } else if view == "" {
      assert all == acc;
    } else {
      var next := acc + [view[0]];
      assert next + view[1..] == all;
      if EndsWithCrlf(next) {
        assert all[..|next|] == next && all[|next|..] == view[1..];
      } else {
        LineMeansFrom(next, view[1..], end);
      }
    }
  }

  /** Where the first CRLF can be, when there is none in `acc`. */
  lemma FirstCrlfAt(acc: string, view: string)
    requires forall j :: 0 <= j <= |acc| - 2 ==> !OccursAt(acc + view, CRLF, j)
    ensures var all := acc + view;
            && (Find(all, CRLF) < |all| ==> Find(all, CRLF) + 2 > |acc|)
            && (view == "" ==> Find(all, CRLF) == |all|)
            && (view != "" ==>
                  if EndsWithCrlf(acc + [view[0]]) then Find(all, CRLF) == |acc| - 1
                  else forall j :: 0 <= j <= |acc| - 1 ==> !OccursAt(all, CRLF, j))
  {
    var all := acc + view;
    if view != "" {
      var next := acc + [view[0]];
      assert forall j :: 0 <= j < |next| ==> all[j] == next[j];
      if |acc| >= 1 {
        OccursAtIff(all, CRLF, |acc| - 1);
        if EndsWithCrlf(next) { FindIs(all, CRLF, |acc| - 1); }
      }
    } else {
      forall j | 0 <= j < |all| ensures !OccursAt(all, CRLF, j) {
      }
      FindIs(all, CRLF, |all|);
    }
  }

  lemma LineMeans(view: string, end: End)
    ensures LineFrom("", view, end) == FirstLine(view, end)
  {
    assert "" + view == view;
    LineMeansFrom("", view, end);
  }

  lemma LineStep(acc: string, view: string, end: End)
    ensures |acc| >= MAX_LINE_LENGTH ==> LineFrom(acc, view, end) == Line(false, acc, view)
    ensures |acc| < MAX_LINE_LENGTH && view == "" ==> LineFrom(acc, view, end) == Line(end == Orderly && acc != "", acc, "")
    ensures |acc| < MAX_LINE_LENGTH && view != "" ==>
              LineFrom(acc, view, end) ==
              if EndsWithCrlf(acc + [view[0]]) then Line(true, acc + [view[0]], view[1..])
              else LineFrom(acc + [view[0]], view[1..], end)
  {
  }

  class StreamLineReader {
    const strm: SocketStream
    var fixed: array<char>
    var used: nat
    var growable: string

    ghost predicate Valid()
      reads this, fixed
    {
      && 2 <= fixed.Length
      && used < fixed.Length
      && (used > 0 ==> fixed[used] == '\0')
      && (growable != "" ==> used == fixed.Length - 1 && fixed[..used] <= growable)
    }

    /** `ptr()` and `size()`: the growing buffer as soon as it holds anything. */
    ghost function Content(): string
      requires used <= fixed.Length
      reads this, fixed
    {
      if growable == "" then fixed[..used] else growable
    }

    constructor (strm: SocketStream, size: nat)
      requires size >= 2
      ensures Valid() && fresh(fixed) && this.strm == strm && Content() == ""
    {
      this.strm := strm;
      fixed := new char[size];
      used, growable := 0, "";
    }

    function Size(): (n: nat)
      requires Valid()
      reads this, fixed
      ensures n == |Content()|
    {
      if growable == "" then used else |growable|
    }

    /** What `ptr()` points to, `size()` octets long. */
    function Text(): (s: string)
      requires Valid()
      reads this, fixed
      ensures s == Content()
    {
      if growable == "" then fixed[..used] else growable
    }

    method Append(c: char)
      requires Valid()
      modifies this`used, this`growable, fixed
      ensures Valid()
      ensures Content() == old(Content()) + [c]
    {
      ghost var content := Content();
      if used < fixed.Length - 1 {
        fixed[used] := c;
        used := used + 1;
        fixed[used] := '\0';
        assert fixed[..used] == content + [c];
      } else {
        if growable == "" {
          assert fixed[used] == '\0';
          growable := fixed[..used];
        }
        growable := growable + [c];
      }
    }

    /** How a line leaves the stream: a fault that cut it short has been met, and otherwise the rest is still to come. */
    ghost predicate Left(l: Line, end: End, later: seq<NetEvent>)
      requires strm.Valid()
      reads this, strm, strm.sock, strm.buff
    {
      if !l.ok && |l.text| < MAX_LINE_LENGTH && end == Broken then strm.Past(later)
      else strm.View() == l.rest && strm.Ends() == end && strm.Later() == later
    }

    method ReadByte() returns (n: int, byte: char)
      requires strm.Valid()
      modifies strm`off, strm`contentSize, strm`delivered, strm.sock, strm.buff
      ensures strm.Valid()
      ensures n > 0 ==> old(strm.View()) != "" && byte == old(strm.View())[0] && strm.View() == old(strm.View())[1..]
      ensures n <= 0 ==> old(strm.View()) == ""
      ensures n == 0 ==> strm.View() == "" && strm.Ends() == Orderly
      ensures n < 0 ==> old(strm.Ends()) == Broken && strm.Past(old(strm.Later()))
      ensures n >= 0 ==> strm.Ends() == old(strm.Ends()) && strm.Later() == old(strm.Later())
    {
      ghost var view := strm.View();
      var data;
      n, data := strm.Read(1);
      byte := '\0';
      if n > 0 {
        byte := data[0];
        assert view == [byte] + strm.View();
      }
    }

    /** One turn of the loop: the line ends, or one octet more belongs to it. */
    method GetOctet(prev: char) returns (ended: bool, ok: bool, byte: char)
      requires Valid() && strm.Valid() && strm.buff != fixed
      requires prev == if Content() == "" then '\0' else Content()[|Content()| - 1]
      modifies this`used, this`growable, fixed
      modifies strm`off, strm`contentSize, strm`delivered, strm.sock, strm.buff
      ensures Valid() && strm.Valid()
      ensures var goal := LineFrom(old(Content()), old(strm.View()), old(strm.Ends()));
              if ended then ok == goal.ok && Content() == goal.text && Left(goal, old(strm.Ends()), old(strm.Later()))
              else LineFrom(Content(), strm.View(), strm.Ends()) == goal
      ensures !ended ==> strm.Ends() == old(strm.Ends()) && strm.Later() == old(strm.Later())
      ensures !ended ==> |strm.View()| < |old(strm.View())| && Content() != "" && byte == Content()[|Content()| - 1]
    {
      hide LineFrom;
      hide Wire;
      hide Ending;
      hide Behind;
      LineStep(Content(), strm.View(), strm.Ends());
      byte := '\0';
      if Size() >= MAX_LINE_LENGTH { return true, false, byte; }
      var n;
      n, byte := ReadByte();
      if n < 0 { return true, false, byte; }
      if n == 0 { return true, Size() > 0, byte; }
      var crlf := prev == '\r' && byte == '\n';
      Append(byte);
      return crlf, true, byte;
    }

    /** Reads octet by octet; the result depends only on the octets to come, not on how they arrive. */
    method GetLine() returns (ok: bool)
      requires Valid() && strm.Valid() && strm.buff != fixed
      modifies this`used, this`growable, fixed
      modifies strm`off, strm`contentSize, strm`delivered, strm.sock, strm.buff
      ensures Valid() && strm.Valid()
      ensures var l := LineFrom("", old(strm.View()), old(strm.Ends()));
              ok == l.ok && Content() == l.text && Left(l, old(strm.Ends()), old(strm.Later()))
    {
      hide LineFrom;
      hide Wire;
      hide Ending;
      hide Behind;
      used, growable := 0, "";
      var prev := '\0';
      ghost var end, later := strm.Ends(), strm.Later();
      ghost var goal := LineFrom("", strm.View(), end);
      while true
        invariant Valid() && strm.Valid() && strm.Ends() == end && strm.Later() == later
        invariant prev == if Content() == "" then '\0' else Content()[|Content()| - 1]
        invariant LineFrom(Content(), strm.View(), end) == goal
        decreases |strm.View()|
      {
        var ended;
        ended, ok, prev := GetOctet(prev);
        if ended { return ok; }
      }
    }
  }
}
