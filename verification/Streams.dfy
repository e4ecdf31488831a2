/** `SocketStream` over an adversarial network, and `stream_line_reader` on top of it. */
module Streams {

  const READ_BUFF_SIZE: nat := 4096
  const MAX_LINE_LENGTH: nat := 32768

  type Chunk = s: string | s != "" witness "x"

  /** What one call of `recv` meets: octets that have arrived, or a failed wait or `recv`, after which more may arrive.
      The end of the list is the orderly end of the connection. */
  datatype NetEvent = Data(bytes: Chunk) | Fault

  datatype End = Orderly | Broken

  /** All octets that the network will deliver before it fails or ends. */
  function Wire(events: seq<NetEvent>): string {
    if events == [] || events[0].Fault? then "" else events[0].bytes + Wire(events[1..])
  }

  /** How these will stop. */
  function Ending(events: seq<NetEvent>): End {
    if events == [] then Orderly
    else if events[0].Fault? then Broken
    else Ending(events[1..])
  }

  /** What comes behind the next fault. */
  function Behind(events: seq<NetEvent>): seq<NetEvent> {
    if events == [] then []
    else if events[0].Fault? then events[1..]
    else Behind(events[1..])
  }

  /** All octets, whatever faults come between them. */
  function Octets(events: seq<NetEvent>): string {
    if events == [] then "" else (if events[0].Fault? then "" else events[0].bytes) + Octets(events[1..])
  }

  class Socket {
    var incoming: seq<NetEvent>
    ghost var received: string

    constructor (incoming: seq<NetEvent>)
      ensures this.incoming == incoming && received == ""
    {
      this.incoming := incoming;
      received := "";
    }

    /** At most `limit` octets of the next arrival; 0 at the end, and -1 on a fault, which is then over. */
    method Recv(limit: nat) returns (n: int, data: string)
      requires limit > 0
      modifies this
      ensures n > 0 ==> n == |data| <= limit && old(Wire(incoming)) == data + Wire(incoming)
      ensures n == 0 ==> old(Wire(incoming)) == "" && Ending(incoming) == Orderly && incoming == old(incoming)
      ensures n < 0 ==> n == -1 && old(Wire(incoming)) == "" && old(Ending(incoming)) == Broken && incoming == old(Behind(incoming))
      ensures n <= 0 ==> data == ""
      ensures n >= 0 ==> Ending(incoming) == old(Ending(incoming)) && Behind(incoming) == old(Behind(incoming))
      ensures old(Octets(incoming)) == data + Octets(incoming)
      ensures received == old(received) + data
    {
      if incoming == [] {
        assert received + "" == received;
        return 0, "";
      }
      match incoming[0]
      case Fault =>
        assert received + "" == received;
        incoming := incoming[1..];
        return -1, "";
      case Data(bytes) =>
        ghost var rest := incoming[1..];
        if limit < |bytes| {
          data := bytes[..limit];
          incoming := [Data(bytes[limit..])] + incoming[1..];
          assert incoming[1..] == rest;
          assert bytes + Wire(rest) == bytes[..limit] + (bytes[limit..] + Wire(rest));
          assert bytes + Octets(rest) == bytes[..limit] + (bytes[limit..] + Octets(rest));
        } else {
          data := bytes;
          incoming := incoming[1..];
        }
        n := |data|;
        received := received + data;
    }
  }

  class SocketStream {
    const sock: Socket
    var buff: array<char>
    var off: nat
    var contentSize: nat
    ghost var delivered: string

    /** Everything handed to callers, followed by the unread slice, is what has been received, in order. */
    ghost predicate Valid()
      reads this, sock, buff
    {
      && buff.Length == READ_BUFF_SIZE
      && off <= contentSize <= buff.Length
      && delivered + buff[off..contentSize] == sock.received
    }

    /** The octets that callers have not seen yet. */
    ghost function View(): string
      requires off <= contentSize <= buff.Length
      reads this, sock, buff
    {
      buff[off..contentSize] + Wire(sock.incoming)
    }

    /** The same across faults. */
    ghost function Outstanding(): string
      requires off <= contentSize <= buff.Length
      reads this, sock, buff
    {
      buff[off..contentSize] + Octets(sock.incoming)
    }

    ghost function Ends(): End
      reads this, sock
    {
      Ending(sock.incoming)
    }

    ghost function Later(): seq<NetEvent>
      reads this, sock
    {
      Behind(sock.incoming)
    }

    /** The next fault has been met, and what comes behind it comes next. */
    ghost predicate Past(later: seq<NetEvent>)
      requires off <= contentSize <= buff.Length
      reads this, sock, buff
    {
      sock.incoming == later && View() == Wire(later)
    }

    /** Reading has gone no further than the next fault. */
    ghost predicate UpToFault(end: End, later: seq<NetEvent>)
      requires off <= contentSize <= buff.Length
      reads this, sock, buff
    {
      (Ends() == end && Later() == later) || (end == Broken && Past(later))
    }

    constructor (sock: Socket)
      requires sock.received == ""
      ensures Valid() && fresh(buff) && this.sock == sock
      ensures View() == Wire(sock.incoming) && delivered == ""
    {
      this.sock := sock;
      buff := new char[READ_BUFF_SIZE];
      off, contentSize := 0, 0;
      delivered := "";
    }

    /** Serves from the buffer first; small reads refill it, large ones go to the socket directly. */
    method Read(size: nat) returns (n: int, data: string)
      requires Valid() && size > 0
      modifies this`off, this`contentSize, this`delivered, sock, buff
      ensures Valid()
      ensures old(Outstanding()) == data + Outstanding()
      ensures n > 0 ==> n == |data| <= size && old(View()) == data + View()
      ensures n <= 0 ==> data == "" && old(View()) == ""
      ensures n == 0 ==> View() == "" && Ends() == Orderly
      ensures n < 0 ==> old(Ends()) == Broken && Past(old(Later()))
      ensures n >= 0 ==> Ends() == old(Ends()) && Later() == old(Later())
      ensures delivered == old(delivered) + data
    {
      if off < contentSize {
        data := FromBuffer(size);
        return |data|, data;
      }
      off, contentSize := 0, 0;
      if size < buff.Length {
        n := Refill();
        if n <= 0 { return n, ""; }
        data := FromBuffer(size);
        n := |data|;
      } else {
        n, data := sock.Recv(size);
        delivered := delivered + data;
      }
    }

    method FromBuffer(size: nat) returns (data: string)
      requires Valid() && size > 0 && off < contentSize
      modifies this`off, this`delivered
      ensures Valid()
      ensures 0 < |data| <= size && old(View()) == data + View() && old(Outstanding()) == data + Outstanding()
      ensures delivered == old(delivered) + data
    {
      var remaining := contentSize - off;
      var k := if size <= remaining then size else remaining;
      data := buff[off..off + k];
      assert buff[off..contentSize] == data + buff[off + k..contentSize];
      off := off + k;
      delivered := delivered + data;
    }

    /** One `recv` into the empty buffer. */
    method Refill() returns (n: int)
      requires Valid() && off == contentSize == 0
      modifies this`contentSize, sock, buff
      ensures Valid() && off == 0 && delivered == old(delivered)
      ensures Outstanding() == old(Outstanding())
      ensures n >= 0 ==> View() == old(View()) && Ends() == old(Ends()) && Later() == old(Later())
      ensures n > 0 ==> contentSize == n
      ensures n <= 0 ==> old(View()) == "" && contentSize == 0
      ensures n == 0 ==> Ends() == Orderly
      ensures n < 0 ==> old(Ends()) == Broken && Past(old(Later()))
    {
      var bytes;
      n, bytes := sock.Recv(buff.Length);
      if n > 0 {
        Fill(bytes);
        contentSize := n;
        assert buff[0..contentSize] == bytes;
      }
    }

    /** `recv` writes into the buffer. */
    method Fill(bytes: string)
      requires |bytes| <= buff.Length
      modifies buff
      ensures buff[..|bytes|] == bytes
    {
      for i := 0 to |bytes|
        invariant buff[..i] == bytes[..i]
      {
        buff[i] := bytes[i];
      }
    }
  }
}
