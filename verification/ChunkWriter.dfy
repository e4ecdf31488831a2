/** `write_content_chunked` over a socket that may take any part of what it is given. */
module ChunkWriter {
  import opened Text
  import opened FieldLine
  import opened Numbers

  /** The writing side of a socket: `plan` holds the coming results of `send`, a negative one being a failure. Past its
      end every write is taken whole. */
  ghost predicate NoneFails(plan: seq<int>) {
    forall i :: 0 <= i < |plan| ==> plan[i] >= 0
  }

  class OutStream {
    var wire: string
    var plan: seq<int>

    constructor (plan: seq<int>)
      ensures wire == "" && this.plan == plan
    {
      wire := "";
      this.plan := plan;
    }

    method Send(data: string) returns (n: int)
      modifies this
      ensures n < 0 ==> wire == old(wire)
      ensures n >= 0 ==> n <= |data| && wire == old(wire) + data[..n]
      ensures old(plan) == [] ==> n == |data| && plan == []
      ensures old(plan) != [] ==> plan == old(plan)[1..] && n == if old(plan)[0] > |data| then |data| else old(plan)[0]
    {
      assert wire + data[..0] == wire && data[..|data|] == data;
      if plan == [] {
        wire := wire + data;
        return |data|;
      }
      n := if plan[0] > |data| then |data| else plan[0];
      plan := plan[1..];
      if n >= 0 { wire := wire + data[..n]; }
    }

    /** `write_data`: repeats until everything is taken or a write fails, however little is taken at a time. */
    method WriteData(data: string) returns (ok: bool)
      modifies this
      ensures ok ==> wire == old(wire) + data
      ensures !ok ==> old(wire) <= wire <= old(wire) + data
      ensures NoneFails(old(plan)) ==> ok && NoneFails(plan)
      ensures |plan| <= |old(plan)|
    {
      var offset := 0;
      assert wire + data[..0] == wire;
      while offset < |data|
        invariant 0 <= offset <= |data|
        invariant wire == old(wire) + data[..offset]
        invariant NoneFails(old(plan)) ==> NoneFails(plan)
        invariant |plan| <= |old(plan)|
        decreases |plan|, |data| - offset
      {
        ghost var before := wire;
        var n := Send(data[offset..]);
        if n < 0 { return false; }
        assert data[..offset] + data[offset..][..n] == data[..offset + n];
        offset := offset + n;
      }
      assert data[..offset] == data;
      return true;
    }
  }

  // ---------- The text of a chunked body ----------

  function ChunkText(data: string): string {
    if data == "" then "" else HexText(|data|) + CRLF + data + CRLF
  }

  function FieldText(f: Field): string { f.key + ": " + f.val + CRLF }

  function FieldTexts(fields: seq<Field>): string {
    if fields == [] then "" else FieldTexts(fields[..|fields| - 1]) + FieldText(fields[|fields| - 1])
  }

  const DONE_MARKER: string := "0\r\n"

  function DoneText(trailer: seq<Field>): string { DONE_MARKER + FieldTexts(trailer) + CRLF }

  /** What a content provider does with the data sink in one call, and what it returns. */
  datatype Action = Write(data: string) | Done(trailer: seq<Field>)

  datatype Call = Call(actions: seq<Action>, ret: bool)

  function ActionText(a: Action): string {
    match a
    case Write(data) => ChunkText(data)
    case Done(trailer) => DoneText(trailer)
  }

  function ActionsText(actions: seq<Action>): string {
    if actions == [] then "" else ActionsText(actions[..|actions| - 1]) + ActionText(actions[|actions| - 1])
  }

  /** `data_available` after a call: only a write of something keeps the loop going. */
  function Continues(actions: seq<Action>): bool {
    if actions == [] then true
    else
      match actions[|actions| - 1]
      case Write(data) => data != ""
      case Done(_) => false
  }

  lemma ActionsNone()
    ensures ActionsText([]) == "" && Continues([])
  {
  }

  lemma ActionsSnoc(actions: seq<Action>, a: Action)
    ensures ActionsText(actions + [a]) == ActionsText(actions) + ActionText(a)
    ensures Continues(actions + [a]) == (a.Write? && a.data != "")
  {
    assert (actions + [a])[..|actions|] == actions;
  }

  datatype WriteError = NoError | WriteFailed | Canceled

  /** The sink handed to the content provider. */
  class DataSink {
    const out: OutStream
    var ok: bool
    var dataAvailable: bool
    var offset: nat

    constructor (out: OutStream)
      ensures this.out == out && ok && dataAvailable && offset == 0
    {
      this.out := out;
      ok, dataAvailable, offset := true, true, 0;
    }

    method Write(data: string)
      requires |data| <= U64_MAX
      modifies this`ok, this`dataAvailable, this`offset, out
      ensures !old(ok) ==> !ok && out.wire == old(out.wire)
      ensures ok ==> out.wire == old(out.wire) + ChunkText(data) && dataAvailable == (data != "")
      ensures ok ==> offset == old(offset) + |data|
      ensures NoneFails(old(out.plan)) ==> ok == old(ok) && NoneFails(out.plan)
    {
      assert out.wire + "" == out.wire;
      if ok {
        dataAvailable := |data| > 0;
        offset := offset + |data|;
        if data != "" {
          var size := FromIToHex(|data| as u64);
          ok := out.WriteData(size + CRLF + data + CRLF);
        }
      }
    }

    method Done(trailer: seq<Field>)
      modifies this`ok, this`dataAvailable, out
      ensures !old(ok) ==> !ok && out.wire == old(out.wire)
      ensures ok ==> out.wire == old(out.wire) + DoneText(trailer) && !dataAvailable
      ensures NoneFails(old(out.plan)) ==> ok == old(ok) && NoneFails(out.plan)
    {
      if !ok { return; }
      dataAvailable := false;
      ghost var start := out.wire;
      var fine := out.WriteData(DONE_MARKER);
      if !fine { ok := false; }
      for i := 0 to |trailer|
        invariant NoneFails(old(out.plan)) ==> ok && NoneFails(out.plan)
        invariant !dataAvailable
        invariant ok ==> out.wire == start + (DONE_MARKER + FieldTexts(trailer[..i]))
      {
        assert trailer[..i + 1][..i] == trailer[..i];
        ghost var text := DONE_MARKER + FieldTexts(trailer[..i]);
        assert start + text + FieldText(trailer[i]) == start + (DONE_MARKER + FieldTexts(trailer[..i + 1]));
        fine := out.WriteData(FieldText(trailer[i]));
        if !fine { ok := false; }
      }
      assert trailer[..|trailer|] == trailer;
      assert start + (DONE_MARKER + FieldTexts(trailer)) + CRLF == start + DoneText(trailer);
      fine := out.WriteData(CRLF);
      if !fine { ok := false; }
    }
  }

  // ---------- The writing loop ----------

  /** What the environment does before a call of the provider: begins to shut down, or is not writable in time. */
  datatype Turn = Turn(shuttingDown: bool, writable: bool)

  datatype Produced = Produced(text: string, ended: bool)

  /** The text of the calls up to the first after which no data is available. */
  function TextOf(calls: seq<Call>): Produced {
    if calls == [] then Produced("", false)
    else if !Continues(calls[0].actions) then Produced(ActionsText(calls[0].actions), true)
    else
      var more := TextOf(calls[1..]);
      Produced(ActionsText(calls[0].actions) + more.text, more.ended)
  }

  predicate Sizes(calls: seq<Call>) {
    forall i, j :: 0 <= i < |calls| && 0 <= j < |calls[i].actions| && calls[i].actions[j].Write? ==>
      |calls[i].actions[j].data| <= U64_MAX
  }

  /** One call of the content provider. */
  method Provide(sink: DataSink, actions: seq<Action>)
    requires forall j :: 0 <= j < |actions| && actions[j].Write? ==> |actions[j].data| <= U64_MAX
    requires sink.ok && sink.dataAvailable
    modifies sink`ok, sink`dataAvailable, sink`offset, sink.out
    ensures sink.ok ==> sink.out.wire == old(sink.out.wire) + ActionsText(actions)
    ensures sink.ok ==> sink.dataAvailable == Continues(actions)
    ensures NoneFails(old(sink.out.plan)) ==> sink.ok && NoneFails(sink.out.plan)
  {
    hide ActionsText;
    hide Continues;
    hide DoneText;
    hide ChunkText;
    var out := sink.out;
    ghost var start := out.wire;
    assert start + "" == start;
    ActionsNone();
    for i := 0 to |actions|
      invariant NoneFails(old(out.plan)) ==> sink.ok && NoneFails(out.plan)
      invariant sink.ok ==> out.wire == start + ActionsText(actions[..i])
      invariant sink.ok ==> sink.dataAvailable == Continues(actions[..i])
    {
      ghost var done := actions[..i];
      assert actions[..i + 1] == done + [actions[i]];
      ActionsSnoc(done, actions[i]);
      AppendAssoc(start, ActionsText(done), ActionText(actions[i]));
      match actions[i]
      case Write(data) => sink.Write(data);
      case Done(trailer) => sink.Done(trailer);
    }
    assert actions[..|actions|] == actions;
  }

  /** `write_content_chunked` without compression. A provider that has run out of calls fails. */
  method WriteContentChunked(out: OutStream, calls: seq<Call>, turns: seq<Turn>)
    returns (ok: bool, error: WriteError, ghost interrupted: bool)
    requires Sizes(calls)
    modifies out
    ensures ok <==> error == NoError
    ensures ok && !interrupted ==>
              TextOf(calls).ended && out.wire == old(out.wire) + TextOf(calls).text
    ensures interrupted ==> exists i :: 0 <= i < |turns| && turns[i].shuttingDown
    ensures error == WriteFailed ==> !NoneFails(old(out.plan)) || exists i :: 0 <= i < |turns| && !turns[i].writable
    ensures error == Canceled ==> !TextOf(calls).ended || exists i :: 0 <= i < |calls| && !calls[i].ret
    ensures TextOf(calls).ended && (forall i :: 0 <= i < |calls| ==> calls[i].ret) && NoneFails(old(out.plan)) ==>
              ok || exists i :: 0 <= i < |turns| && !turns[i].writable
  {
    hide ActionsText;
    hide Continues;
    var sink := new DataSink(out);
    interrupted := false;
    var i := 0;
    ghost var goal := TextOf(calls);
    ghost var text := "";
    assert calls[0..] == calls && out.wire + "" == out.wire;
    while sink.dataAvailable
      invariant sink.out == out && fresh(sink) && sink.ok && 0 <= i <= |calls|
      invariant out.wire == old(out.wire) + text
      invariant if sink.dataAvailable then
                  var more := TextOf(calls[i..]); goal == Produced(text + more.text, more.ended)
                else goal == Produced(text, true)
      invariant NoneFails(old(out.plan)) ==> NoneFails(out.plan)
      decreases |calls| - i, sink.dataAvailable
    {
      if i < |turns| && turns[i].shuttingDown {
        interrupted := true;
        return true, NoError, true;
      }
      if i < |turns| && !turns[i].writable { return false, WriteFailed, false; }
      if i == |calls| { return false, Canceled, false; }
      var call := calls[i];
      Provide(sink, call.actions);
      if !call.ret { return false, Canceled, false; }
      if !sink.ok { return false, WriteFailed, false; }
      assert calls[i..][0] == call && calls[i..][1..] == calls[i + 1..];
      ghost var now := ActionsText(call.actions);
      AppendAssoc(old(out.wire), text, now);
      AppendAssoc(text, now, TextOf(calls[i + 1..]).text);
      text := text + now;
      i := i + 1;
    }
    return true, NoError, false;
  }
}
