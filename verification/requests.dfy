/**
 The request side of the wire format: a length-prefixed frame holding an argument count and
 length-prefixed arguments. `send` fills a pre-sized buffer by offset; `ReadRequest` is an
 independent reader of the format.
 */
module Requests {
  import opened Bytes
  import opened Results
  import opened Sequences

  function BlocksSize(args: seq<Text>): nat {
    if args == [] then 0 else 4 + |args[0]| + BlocksSize(args[1..])
  }

  function Block(arg: Text): (s: Text)
    ensures |s| == 4 + |arg|
  {
    Put32(|arg|) + arg
  }

  function ArgBlocks(args: seq<Text>): (s: Text)
    ensures |s| == BlocksSize(args)
  {
    if args == [] then [] else Block(args[0]) + ArgBlocks(args[1..])
  }

  function PayloadSize(args: seq<Text>): nat {
    4 + BlocksSize(args)
  }

  function MessageSize(args: seq<Text>): nat {
    4 + PayloadSize(args)
  }

  function Request(args: seq<Text>): (s: Text)
    ensures |s| == MessageSize(args)
  {
    Put32(PayloadSize(args)) + Put32(|args|) + ArgBlocks(args)
  }

  lemma {:induction false} BlocksAppend(args: seq<Text>, more: seq<Text>)
    ensures ArgBlocks(args + more) == ArgBlocks(args) + ArgBlocks(more)
    ensures BlocksSize(args + more) == BlocksSize(args) + BlocksSize(more)
  {
    if args == [] {
      assert args + more == more;
    } else {
      BlocksAppend(args[1..], more);
      assert (args + more)[1..] == args[1..] + more && (args + more)[0] == args[0];
      Regroup(Block(args[0]), ArgBlocks(args[1..]), ArgBlocks(more));
    }
  }

  lemma {:induction false} BlocksStep(args: seq<Text>, i: nat)
    requires i < |args|
    ensures ArgBlocks(args[..i + 1]) == ArgBlocks(args[..i]) + Block(args[i])
    ensures BlocksSize(args[..i + 1]) == BlocksSize(args[..i]) + 4 + |args[i]|
    ensures BlocksSize(args[..i + 1]) <= BlocksSize(args)
  {
    BlocksAppend(args[..i], [args[i]]);
    assert args[..i + 1] == args[..i] + [args[i]];
    assert ArgBlocks([args[i]]) == Block(args[i]) + ArgBlocks([]);
    BlocksAppend(args[..i + 1], args[i + 1..]);
    assert args == args[..i + 1] + args[i + 1..];
  }

  lemma {:induction false} CountFits(args: seq<Text>)
    ensures 4 * |args| <= BlocksSize(args)
    ensures forall i | 0 <= i < |args| :: |args[i]| < PayloadSize(args)
  {
    if args != [] {
      CountFits(args[1..]);
      assert forall i | 0 < i < |args| :: args[i] == args[1..][i - 1];
    }
  }

  /** uint32_t addition may wrap at every step or once at the end. */
  lemma {:induction false} WrapOnce(x: nat, y: nat)
    ensures (x % TWO_32 + 4 + y % TWO_32) % TWO_32 == (x + 4 + y) % TWO_32
  {
    assert x == TWO_32 * (x / TWO_32) + x % TWO_32;
    assert y == TWO_32 * (y / TWO_32) + y % TWO_32;
    var low := x % TWO_32 + 4 + y % TWO_32;
    SameRemainder(low, x / TWO_32 + y / TWO_32);
  }

  lemma {:induction false} SameRemainder(low: nat, k: nat)
    ensures (low + TWO_32 * k) % TWO_32 == low % TWO_32
  {
    if k > 0 {
      SameRemainder(low, k - 1);
      OneTurn(low + TWO_32 * (k - 1));
    }
  }

  lemma {:induction false} OneTurn(x: nat)
    ensures (x + TWO_32) % TWO_32 == x % TWO_32
  {
  }

  /**
   The size `send` allocates: a uint32_t sum, so it wraps. It is the size of the message
   exactly when that size fits 32 bits; otherwise the writes that follow leave the buffer.
   */
  method AllocatedSize(args: seq<Text>) returns (size: UInt32)
    ensures size == MessageSize(args) % TWO_32
    ensures size == MessageSize(args) <==> MessageSize(args) < TWO_32
  {
    var payload: UInt32 := 4;
    for i := 0 to |args|
      invariant payload == PayloadSize(args[..i]) % TWO_32
    {
      BlocksStep(args, i);
      WrapOnce(PayloadSize(args[..i]), |args[i]|);
      payload := (payload + 4 + |args[i]| % TWO_32) % TWO_32;
    }
    assert args[..|args|] == args;
    size := (4 + payload) % TWO_32;
    WrapOnce(PayloadSize(args), 0);
  }

  /** One more write to each byte from `a` up to `b`. */
  ghost function Bump(writes: seq<nat>, a: nat, b: nat): (w: seq<nat>)
    ensures |w| == |writes|
    ensures forall k | 0 <= k < |writes| :: w[k] == writes[k] + if a <= k < b then 1 else 0
  {
    seq(|writes|, k requires 0 <= k < |writes| => writes[k] + if a <= k < b then 1 else 0)
  }

  lemma {:induction false} BumpTwice(writes: seq<nat>, a: nat, b: nat, c: nat)
    requires a <= b <= c
    ensures Bump(Bump(writes, a, b), b, c) == Bump(writes, a, c)
  {
  }

  lemma {:induction false} BumpNothing(writes: seq<nat>, a: nat)
    ensures Bump(writes, a, a) == writes
  {
  }

  lemma {:induction false} BumpAll(size: nat)
    ensures Bump(seq(size, _ => 0), 0, size) == seq(size, _ => 1)
  {
  }

  /** The zero-initialised `std::vector<uint8_t>` being filled, with a count of the writes to each byte. */
  class MessageBuffer {
    const bytes: array<Byte>
    ghost var writes: seq<nat>

    ghost predicate Valid()
      reads this
    {
      |writes| == bytes.Length
    }

    constructor (size: nat)
      ensures Valid() && fresh(bytes)
      ensures bytes[..] == seq(size, _ => 0) && writes == seq(size, _ => 0)
    {
      bytes := new Byte[size](_ => 0);
      writes := seq(size, _ => 0);
    }

    /** `memcpy` of `data` to offset `off`. */
    method Copy(off: nat, data: Text)
      requires Valid() && off + |data| <= bytes.Length
      modifies this, bytes
      ensures Valid()
      ensures bytes[..] == old(bytes[..])[..off] + data + old(bytes[..])[off + |data|..]
      ensures writes == Bump(old(writes), off, off + |data|)
    {
      BumpNothing(writes, off);
      for i := 0 to |data|
        invariant Valid()
        invariant bytes[..] == old(bytes[..])[..off] + data[..i] + old(bytes[..])[off + i..]
        invariant writes == Bump(old(writes), off, off + i)
      {
        bytes[off + i] := data[i];
        writes := writes[off + i := writes[off + i] + 1];
        assert writes == Bump(old(writes), off, off + i + 1);
      }
    }

    /** `put_le` of a uint32_t to offset `off`. */
    method PutLe32(off: nat, v: UInt32)
      requires Valid() && off + 4 <= bytes.Length
      modifies this, bytes
      ensures Valid()
      ensures bytes[..] == old(bytes[..])[..off] + Put32(v) + old(bytes[..])[off + 4..]
      ensures writes == Bump(old(writes), off, off + 4)
    {
      Copy(off, Put32(v));
    }

    /** The two header words. */
    method WriteHeader(payload: UInt32, count: UInt32)
      requires Valid() && 8 <= bytes.Length
      modifies this, bytes
      ensures Valid()
      ensures bytes[..8] == Put32(payload) + Put32(count)
      ensures writes == Bump(old(writes), 0, 8)
    {
      PutLe32(0, payload);
      assert bytes[..4] == Put32(payload);
      PutLe32(4, count);
      BumpTwice(old(writes), 0, 4, 8);
    }

    /** What a copy to offset `off` leaves up to its end. */
    static lemma {:induction false} PrefixWritten(before: Text, off: nat, data: Text, after: Text)
      requires off + |data| <= |before| && after == before[..off] + data + before[off + |data|..]
      ensures after[..off + |data|] == before[..off] + data
    {
    }

    /** One pass of the loop: the argument's size, then the argument. */
    method WriteBlock(off: nat, arg: Text)
      requires Valid() && off + 4 + |arg| <= bytes.Length && |arg| < TWO_32
      modifies this, bytes
      ensures Valid()
      ensures bytes[..off + 4 + |arg|] == old(bytes[..off]) + Block(arg)
      ensures writes == Bump(old(writes), off, off + 4 + |arg|)
    {
      ghost var start := bytes[..];
      PutLe32(off, |arg| % TWO_32);
      ghost var middle := bytes[..];
      PrefixWritten(start, off, Put32(|arg|), middle);
      Copy(off + 4, arg);
      PrefixWritten(middle, off + 4, arg, bytes[..]);
      Regroup(start[..off], Put32(|arg|), arg);
      BumpTwice(old(writes), off, off + 4, off + 4 + |arg|);
    }

    /** The offset loop: after the header, every argument in turn. */
    method WriteBlocks(args: seq<Text>) returns (off: nat)
      requires Valid() && bytes.Length == 8 + BlocksSize(args)
      requires forall i | 0 <= i < |args| :: |args[i]| < TWO_32
      modifies this, bytes
      ensures Valid() && off == bytes.Length
      ensures bytes[..] == old(bytes[..8]) + ArgBlocks(args)
      ensures writes == Bump(old(writes), 8, bytes.Length)
    {
      off := 8;
      assert args[..0] == [] && bytes[..8] + [] == bytes[..8];
      BumpNothing(writes, 8);
      for i := 0 to |args|
        invariant Valid()
        invariant off == 8 + BlocksSize(args[..i]) <= bytes.Length
        invariant bytes[..off] == old(bytes[..8]) + ArgBlocks(args[..i])
        invariant writes == Bump(old(writes), 8, off)
      {
        BlocksStep(args, i);
        WriteBlock(off, args[i]);
        Regroup(old(bytes[..8]), ArgBlocks(args[..i]), Block(args[i]));
        BumpTwice(old(writes), 8, off, off + 4 + |args[i]|);
        off := off + 4 + |args[i]|;
      }
      assert args[..|args|] == args;
      assert bytes[..] == bytes[..off];
    }

    /** Header and blocks: the whole request, each byte written once more than before. */
    method Fill(args: seq<Text>) returns (off: nat)
      requires Valid() && bytes.Length == MessageSize(args) < TWO_32
      modifies this, bytes
      ensures Valid() && off == bytes.Length
      ensures bytes[..] == Request(args)
      ensures writes == Bump(old(writes), 0, bytes.Length)
    {
      CountFits(args);
      WriteHeader(bytes.Length - 4, |args|);
      ghost var header := bytes[..8];
      assert header == Put32(PayloadSize(args)) + Put32(|args|);
      off := WriteBlocks(args);
      assert bytes[..] == header + ArgBlocks(args);
      BumpTwice(old(writes), 0, 8, bytes.Length);
    }
  }

  /**
   What `send` hands to the socket: the loop produces the request, writes every byte exactly once
   and ends at the end.
   */
  method BuildRequest(args: seq<Text>) returns (msg: MessageBuffer, off: nat)
    requires MessageSize(args) < TWO_32
    ensures fresh(msg) && fresh(msg.bytes) && msg.Valid()
    ensures msg.bytes[..] == Request(args)
    ensures off == msg.bytes.Length
    ensures msg.writes == seq(msg.bytes.Length, _ => 1)
  {
    var size := AllocatedSize(args);
    msg := new MessageBuffer(size);
    assert msg.bytes.Length == |msg.bytes[..]| == size;
    off := msg.Fill(args);
    BumpAll(size);
  }

  // ---- a reader of the format ----

  datatype Consumed<+T> = Consumed(value: T, end: nat)

  function ReadBlock(buf: Text, pos: nat): (r: Option<Consumed<Text>>)
    requires pos <= |buf|
    ensures r.Some? ==> pos + 4 <= r.value.end <= |buf|
  {
    if |buf| - pos < 4 then None
    else
      var len, p := Load32(buf[pos..pos + 4]), pos + 4;
      if |buf| - p < len then None else Some(Consumed(buf[p..p + len], p + len))
  }

  function ReadArgs(buf: Text, pos: nat, count: nat): (r: Option<Consumed<seq<Text>>>)
    requires pos <= |buf|
    ensures r.Some? ==> pos <= r.value.end <= |buf|
    decreases count
  {
    if count == 0 then Some(Consumed([], pos))
    else
      match ReadBlock(buf, pos)
      case None => None
      case Some(Consumed(arg, next)) =>
        match ReadArgs(buf, next, count - 1)
        case None => None
        case Some(Consumed(rest, end)) => Some(Consumed([arg] + rest, end))
  }

  /** One request read at `pos`; its arguments must fill the announced payload exactly. */
  function ReadRequest(buf: Text, pos: nat): (r: Option<Consumed<seq<Text>>>)
    ensures r.Some? ==> pos < r.value.end <= |buf|
  {
    if |buf| < pos + 8 then None
    else
      var len, count := Load32(buf[pos..pos + 4]), Load32(buf[pos + 4..pos + 8]);
      match ReadArgs(buf, pos + 8, count)
      case None => None
      case Some(r) => if r.end == pos + 4 + len then Some(r) else None
  }

  /** What a server reading a byte stream recovers: requests until the first that does not parse. */
  function ReadRequests(buf: Text, pos: nat): seq<seq<Text>>
    decreases |buf| - pos
  {
    match ReadRequest(buf, pos)
    case None => []
    case Some(r) => [r.value] + ReadRequests(buf, r.end)
  }

  lemma {:induction false} BlockExactly(buf: Text, pos: nat, arg: Text, end: nat)
    requires pos <= |buf|
    ensures ReadBlock(buf, pos) == Some(Consumed(arg, end))
       <==> |arg| < TWO_32 && pos <= end <= |buf| && buf[pos..end] == Block(arg)
  {
    if ReadBlock(buf, pos) == Some(Consumed(arg, end)) {
      Inverse32(0, buf[pos..pos + 4]);
      Cut(buf, pos, pos + 4, end);
    }
    if |arg| < TWO_32 && pos <= end <= |buf| && buf[pos..end] == Block(arg) {
      AtSplit(buf, pos, Put32(|arg|), arg);
      Inverse32(|arg|, Put32(|arg|));
    }
  }

  lemma {:induction false} ReadArgsSound(buf: Text, pos: nat, count: nat)
    requires pos <= |buf|
    ensures match ReadArgs(buf, pos, count)
            case None => true
            case Some(Consumed(args, end)) => |args| == count && buf[pos..end] == ArgBlocks(args)
    decreases count
  {
    var r := ReadArgs(buf, pos, count);
    if count > 0 && r.Some? {
      var args, end := r.value.value, r.value.end;
      var next := ReadBlock(buf, pos).value.end;
      BlockExactly(buf, pos, args[0], next);
      ReadArgsSound(buf, next, count - 1);
      assert args[1..] == ReadArgs(buf, next, count - 1).value.value;
      Cut(buf, pos, next, end);
    }
  }

  lemma {:induction false} ReadArgsComplete(buf: Text, pos: nat, args: seq<Text>)
    requires At(buf, pos, ArgBlocks(args))
    requires forall i | 0 <= i < |args| :: |args[i]| < TWO_32
    ensures ReadArgs(buf, pos, |args|) == Some(Consumed(args, pos + BlocksSize(args)))
    decreases |args|
  {
    if args != [] {
      var a, rest := args[0], args[1..];
      var next := pos + 4 + |a|;
      AtSplit(buf, pos, Block(a), ArgBlocks(rest));
      BlockExactly(buf, pos, a, next);
      assert ReadBlock(buf, pos) == Some(Consumed(a, next));
      ReadArgsComplete(buf, next, rest);
      assert args == [a] + rest;
    }
  }

  /**
   Request frames and argument lists correspond one to one: a reader recovers exactly the
   arguments sent, and accepts no other bytes.
   */
  lemma {:induction false} ReadsExactly(buf: Text, pos: nat, args: seq<Text>, end: nat)
    ensures ReadRequest(buf, pos) == Some(Consumed(args, end))
       <==> PayloadSize(args) < TWO_32 && pos <= end <= |buf| && buf[pos..end] == Request(args)
  {
    if ReadRequest(buf, pos) == Some(Consumed(args, end)) {
      RequestSound(buf, pos);
    }
    if PayloadSize(args) < TWO_32 && pos <= end <= |buf| && buf[pos..end] == Request(args) {
      RequestComplete(buf, pos, args);
    }
  }

  lemma {:induction false} RequestSound(buf: Text, pos: nat)
    ensures match ReadRequest(buf, pos)
            case None => true
            case Some(Consumed(args, end)) => PayloadSize(args) < TWO_32 && buf[pos..end] == Request(args)
  {
    var r := ReadRequest(buf, pos);
    if r.Some? {
      var a, b, end := buf[pos..pos + 4], buf[pos + 4..pos + 8], r.value.end;
      Inverse32(0, a);
      Inverse32(0, b);
      ReadArgsSound(buf, pos + 8, Load32(b));
      Cut(buf, pos, pos + 4, pos + 8);
      Cut(buf, pos, pos + 8, end);
    }
  }

  lemma {:induction false} RequestComplete(buf: Text, pos: nat, args: seq<Text>)
    requires PayloadSize(args) < TWO_32 && At(buf, pos, Request(args))
    ensures ReadRequest(buf, pos) == Some(Consumed(args, pos + MessageSize(args)))
  {
    CountFits(args);
    AtSplit3(buf, pos, Put32(PayloadSize(args)), Put32(|args|), ArgBlocks(args));
    Load32At(buf, pos, PayloadSize(args));
    Load32At(buf, pos + 4, |args|);
    ReadArgsComplete(buf, pos + 8, args);
  }

  function RequestStream(batch: seq<seq<Text>>): Text {
    if batch == [] then [] else Request(batch[0]) + RequestStream(batch[1..])
  }

  /** Requests sent back to back are read back as the same list of argument lists. */
  lemma {:induction false} StreamReadsBack(before: Text, batch: seq<seq<Text>>)
    requires forall args | args in batch :: PayloadSize(args) < TWO_32
    ensures ReadRequests(before + RequestStream(batch), |before|) == batch
    decreases |batch|
  {
    var buf := before + RequestStream(batch);
    if batch == [] {
      assert ReadRequest(buf, |before|) == None;
    } else {
      var first, next := Request(batch[0]), before + Request(batch[0]);
      assert buf == next + RequestStream(batch[1..]);
      assert buf[|before|..|next|] == first;
      ReadsExactly(buf, |before|, batch[0], |next|);
      StreamReadsBack(next, batch[1..]);
    }
  }
}
