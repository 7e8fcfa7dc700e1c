/**
 The kernel as the client sees it. Every answer the kernel is free to choose comes from the
 outside: an oracle for the byte counts of `send` and `recv`, an argument for `socket`.
 */
module Kernel {
  import opened Bytes

  /** What one connected socket has done so far, as a value. */
  datatype Link = Link(sent: Text, inbox: Text, refusals: nat)

  /** A connected stream socket. */
  class Wire {
    // What the kernel answers to the n-th system call, before it is cut to what is possible.
    const oracle: nat -> int
    var clock: nat
    // System calls that returned zero or less although bytes could have moved.
    var refusals: nat
    // Bytes the kernel has accepted from the client.
    var sent: Text
    // Bytes the peer has sent or will send, not yet delivered.
    var inbox: Text

    constructor (oracle: nat -> int, inbox: Text)
      ensures View() == Link([], inbox, 0)
    {
      this.oracle, this.clock, this.refusals := oracle, 0, 0;
      this.sent, this.inbox := [], inbox;
    }

    function View(): Link
      reads this
    {
      Link(sent, inbox, refusals)
    }

    /** `::send`: some non-empty prefix of `data` is accepted, or nothing. */
    method Send(data: Text) returns (n: int)
      requires data != []
      modifies this
      ensures n <= |data| && (n <= 0 <==> oracle(old(clock)) <= 0)
      ensures View() == if n > 0 then old(View()).(sent := old(sent) + data[..n])
                        else old(View()).(refusals := old(refusals) + 1)
    {
      n := oracle(clock);
      clock := clock + 1;
      if n <= 0 {
        refusals := refusals + 1;
      } else {
        n := if n < |data| then n else |data|;
        sent := sent + data[..n];
      }
    }

    /** `::recv`: some non-empty run of at most `len` bytes arrives, or the stream has ended, or nothing. */
    method Recv(len: nat) returns (n: int, data: Text)
      requires len > 0
      modifies this
      ensures n <= len && (n <= 0 <==> old(inbox) == [] || oracle(old(clock)) <= 0)
      ensures n > 0 ==> n <= |old(inbox)| && data == old(inbox)[..n]
      ensures n > 0 ==> View() == old(View()).(inbox := old(inbox)[n..])
      ensures n <= 0 && old(inbox) == [] ==> View() == old(View())
      ensures n <= 0 && old(inbox) != [] ==> View() == old(View()).(refusals := old(refusals) + 1)
    {
      n, data := oracle(clock), [];
      clock := clock + 1;
      if inbox == [] {
        n := if n < 0 then n else 0;
      } else if n <= 0 {
        refusals := refusals + 1;
      } else {
        n := if n < len then n else len;
        n := if n < |inbox| then n else |inbox|;
        data := inbox[..n];
        inbox := inbox[n..];
      }
    }
  }

  /** The process's descriptor table: which opening each open descriptor is, and how often each opening was closed. */
  class Descriptors {
    var open: map<int, nat>
    var closes: seq<nat>
    // `::close` calls on a descriptor that was not open.
    var strays: nat

    ghost predicate Valid()
      reads this
    {
      && (forall f | f in open :: 0 <= f && open[f] < |closes|)
      && (forall f, g | f in open && g in open && open[f] == open[g] :: f == g)
      && (forall k | 0 <= k < |closes| :: closes[k] == if k in open.Values then 0 else 1)
    }

    constructor ()
      ensures Valid() && open == map[] && closes == [] && strays == 0
    {
      open, closes, strays := map[], [], 0;
    }

    /** `::socket`: -1, or a descriptor that is not open, chosen by the kernel. */
    method Socket(answer: int) returns (fd: int)
      requires Valid()
      modifies this
      ensures Valid() && strays == old(strays)
      ensures fd == (if answer < 0 || answer in old(open) then -1 else answer)
      ensures fd < 0 ==> open == old(open) && closes == old(closes)
      ensures fd >= 0 ==> open == old(open)[fd := |old(closes)|] && closes == old(closes) + [0]
    {
      if answer < 0 || answer in open {
        return -1;
      }
      fd := answer;
      ghost var before := open;
      open := open[fd := |closes|];
      closes := closes + [0];
      assert open[fd] == |closes| - 1;
      assert forall f | f in before :: open[f] == before[f];
      assert forall k | 0 <= k < |closes| - 1 :: k in open.Values <==> k in before.Values;
    }

    /** `::close`. */
    method Close(fd: int)
      requires Valid()
      modifies this
      ensures Valid()
      ensures fd in old(open) ==> open == old(open) - {fd} && strays == old(strays)
                                  && closes == old(closes)[old(open)[fd] := 1]
      ensures fd !in old(open) ==> open == old(open) && closes == old(closes) && strays == old(strays) + 1
    {
      if fd in open {
        ghost var before := open;
        closes := closes[open[fd] := closes[open[fd]] + 1];
        open := open - {fd};
        assert before[fd] in before.Values;
        forall f | f in before && f != fd
          ensures before[f] in open.Values
        {
          assert f in open && open[f] == before[f];
        }
      } else {
        strays := strays + 1;
      }
    }
  }
}
