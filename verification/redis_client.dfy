/**
 `RedisClient`: descriptor ownership, the partial-transfer loops, request and reply framing.
 */
module Client {
  import opened Bytes
  import opened Results
  import opened Kernel
  import opened Requests
  import WireFormat
  import opened WireDecoder

  type Response = WireFormat.Response

  const MAX_FRAME: nat := 64 * 1024 * 1024

  /** What stands first in a reply stream. */
  datatype Delivery =
    | Delivered(result: Result<Response>, rest: Text)
    | Oversized(len: nat, rest: Text)
    | Starved

  function NextFrame(inbox: Text): Delivery {
    if |inbox| < 4 then Starved
    else
      var len, body := Load32(inbox[..4]), inbox[4..];
      if len > MAX_FRAME then Oversized(len, body)
      else if |body| < len then Starved
      else Delivered(Parse(body[..len], 0).result, body[len..])
  }

  /** `rest` is what is left of `stream` after some of its first bytes. */
  ghost predicate Drained(stream: Text, rest: Text) {
    |rest| <= |stream| && rest == stream[|stream| - |rest|..]
  }

  /**
   What reading one frame does, however the kernel cuts the stream up: with no refusal and a
   whole frame in the stream the outcome is determined; otherwise the call reports the socket.
   */
  ghost predicate FrameRead(a: Link, r: Result<Response>, b: Link) {
    && b.sent == a.sent && r != Err(SystemCall("send"))
    && a.refusals <= b.refusals <= a.refusals + 1
    && (r != Err(SystemCall("recv")) ==>
          && b.refusals == a.refusals
          && match NextFrame(a.inbox)
             case Delivered(result, rest) => r == result && b.inbox == rest
             case Oversized(len, rest) => r == Err(FrameTooLong(len)) && b.inbox == rest
             case Starved => false)
    && (r == Err(SystemCall("recv")) ==>
          && Drained(a.inbox, b.inbox)
          && (b.refusals == a.refusals ==> NextFrame(a.inbox) == Starved && b.inbox == []))
  }

  /** What one call of `send` on a connected client does to its socket. */
  ghost predicate Exchange(args: seq<Text>, a: Link, r: Result<Response>, b: Link) {
    if r == Err(SystemCall("send")) then
      && b.inbox == a.inbox && b.refusals == a.refusals + 1
      && exists k: nat :: k < MessageSize(args) && b.sent == a.sent + Request(args)[..k]
    else
      FrameRead(a.(sent := a.sent + Request(args)), r, b)
  }

  class RedisClient {
    var fd: int

    constructor ()
      ensures fd == -1
    {
      fd := -1;
    }

    /** Move construction: the descriptor changes hands. */
    constructor MoveFrom(other: RedisClient)
      modifies other
      ensures fd == old(other.fd) && other.fd == -1
    {
      fd := other.fd;
      new;
      other.fd := -1;
    }

    /** The descriptor this client holds, if any, is open. */
    ghost predicate Holds(table: Descriptors)
      reads this, table
    {
      table.Valid() && -1 <= fd && (fd >= 0 ==> fd in table.open)
    }

    method MoveAssign(table: Descriptors, other: RedisClient)
      requires Holds(table)
      modifies this, other, table
      ensures table.Valid() && table.strays == old(table.strays)
      ensures this == other ==> fd == old(fd) && table.open == old(table.open)
      ensures this != other ==> fd == old(other.fd) && other.fd == -1 && table.open == old(table.open) - {old(fd)}
    {
      if this != other {
        Close(table);
        fd := other.fd;
        other.fd := -1;
      }
    }

    /** `close`, and the destructor. */
    method Close(table: Descriptors)
      requires Holds(table)
      modifies this, table
      ensures Holds(table) && fd == -1
      ensures table.open == old(table.open) - {old(fd)} && table.strays == old(table.strays)
    {
      if fd >= 0 {
        table.Close(fd);
        fd := -1;
      }
    }

    /**
     `connect`: `answer`, `hostValid` and `reached` say what `socket`, `inet_pton` and `::connect`
     do. When only `::connect` fails the client keeps the descriptor.
     */
    method Connect(table: Descriptors, answer: int, hostValid: bool, reached: bool) returns (r: Result<()>)
      requires Holds(table)
      modifies this, table
      ensures Holds(table) && table.strays == old(table.strays)
      ensures var kept := old(table.open) - {old(fd)};
              && table.open - {fd} == kept && fd !in kept
              && table.open.Keys == kept.Keys + (if fd >= 0 then {fd} else {})
              && fd == if answer < 0 || answer in kept || !hostValid then -1 else answer
      ensures r.Ok? <==> fd >= 0 && reached
    {
      Close(table);
      ghost var kept := table.open;
      fd := table.Socket(answer);
      if fd < 0 {
        return Err(SystemCall("socket"));
      }
      assert table.open - {fd} == kept;
      if !hostValid {
        Close(table);
        return Err(SystemCall("inet_pton"));
      }
      if !reached {
        return Err(SystemCall("connect"));
      }
      return Ok(());
    }

    /** Keeps calling `::send` until everything is accepted or the kernel refuses. */
    method WriteAll(wire: Wire, data: Text) returns (r: Result<()>)
      modifies wire
      ensures r.Ok? ==> wire.View() == old(wire.View()).(sent := old(wire.sent) + data)
      ensures r.Err? ==> && r.error == SystemCall("send") && wire.refusals == old(wire.refusals) + 1
                         && wire.inbox == old(wire.inbox)
                         && exists k: nat :: k < |data| && wire.sent == old(wire.sent) + data[..k]
    {
      var sent := 0;
      while sent < |data|
        invariant sent <= |data|
        invariant wire.View() == old(wire.View()).(sent := old(wire.sent) + data[..sent])
      {
        var n := wire.Send(data[sent..]);
        if n <= 0 {
          return Err(SystemCall("send"));
        }
        assert data[..sent] + data[sent..][..n] == data[..sent + n];
        sent := sent + n;
      }
      return Ok(());
    }

    /** Fills the first `len` bytes of `buf`, however few bytes each `::recv` brings. */
    method ReadExact(wire: Wire, buf: array<Byte>, len: nat) returns (r: Result<()>)
      requires len <= buf.Length
      modifies wire, buf
      ensures r.Ok? ==> && len <= |old(wire.inbox)| && buf[..len] == old(wire.inbox)[..len]
                        && wire.View() == old(wire.View()).(inbox := old(wire.inbox)[len..])
      ensures r.Err? ==> && r.error == SystemCall("recv") && wire.sent == old(wire.sent)
                         && Drained(old(wire.inbox), wire.inbox)
                         && (wire.refusals == old(wire.refusals) + 1
                             || (wire.refusals == old(wire.refusals) && |old(wire.inbox)| < len && wire.inbox == []))
    {
      var got := 0;
      while got < len
        invariant got <= len && got <= |old(wire.inbox)|
        invariant buf[..got] == old(wire.inbox)[..got]
        invariant wire.View() == old(wire.View()).(inbox := old(wire.inbox)[got..])
      {
        var n, chunk := wire.Recv(len - got);
        if n <= 0 {
          return Err(SystemCall("recv"));
        }
        forall i | 0 <= i < n {
          buf[got + i] := chunk[i];
        }
        got := got + n;
      }
      return Ok(());
    }

    method ReadFrame(wire: Wire) returns (r: Result<Response>)
      modifies wire
      ensures FrameRead(old(wire.View()), r, wire.View())
    {
      ghost var stream := wire.inbox;
      var header := new Byte[4];
      var got := ReadExact(wire, header, 4);
      if got.Err? {
        return Err(got.error);
      }
      var len := Load32(header[..4]);
      if len > MAX_FRAME {
        return Err(FrameTooLong(len));
      }
      assert header[..4] == stream[..4];
      var body := new Byte[len];
      got := ReadExact(wire, body, len);
      if got.Err? {
        return Err(got.error);
      }
      assert body[..] == stream[4..][..len];
      assert wire.inbox == stream[4..][len..];
      ParseFaults(body[..], 0);
      var parsed, _, _, _ := ParseValue(body[..], 0);
      r := parsed;
    }

    /** One request and its reply. `wire` is the socket `fd` names. */
    method Send(wire: Wire, args: seq<Text>) returns (r: Result<Response>)
      requires MessageSize(args) < TWO_32
      modifies wire
      ensures fd < 0 ==> r == Err(NotConnected) && unchanged(wire)
      ensures fd >= 0 ==> Exchange(args, old(wire.View()), r, wire.View())
    {
      if fd < 0 {
        return Err(NotConnected);
      }
      var msg, _ := BuildRequest(args);
      var w := WriteAll(wire, msg.bytes[..]);
      if w.Err? {
        return Err(w.error);
      }
      r := ReadFrame(wire);
    }
  }
}
