/**
 Whole conversations on one socket. A `Session` is any sequence of `send` calls, each related
 to the next by the contract of `RedisClient.Send`; the kernel may cut every transfer anywhere.
 */
module StreamSync {
  import opened Bytes
  import opened Results
  import opened Sequences
  import opened Kernel
  import opened Requests
  import WireFormat
  import opened WireDecoder
  import opened Client

  function Frame(body: Text): Text {
    Put32(|body|) + body
  }

  function Frames(bodies: seq<Text>): Text {
    if bodies == [] then [] else Frame(bodies[0]) + Frames(bodies[1..])
  }

  datatype Call = Call(args: seq<Text>, result: Result<Response>)

  /** `links[i]` is the socket before call `i`. */
  ghost predicate Session(links: seq<Link>, calls: seq<Call>) {
    && |links| == |calls| + 1
    && forall i | 0 <= i < |calls| :: Exchange(calls[i].args, links[i], calls[i].result, links[i + 1])
  }

  /** Outcomes after which the position in the reply stream is not known. */
  predicate Lost(r: Result<Response>) {
    r.Err? && (r.error.SystemCall? || r.error.FrameTooLong?)
  }

  function ArgLists(calls: seq<Call>): (batch: seq<seq<Text>>)
    ensures |batch| == |calls|
    ensures forall i | 0 <= i < |calls| :: batch[i] == calls[i].args
  {
    if calls == [] then [] else [calls[0].args] + ArgLists(calls[1..])
  }

  /**
   A frame within the limit is consumed whole, whatever its body decodes to. A longer one
   leaves its body in the stream, where the next call will read it as a header.
   */
  lemma {:induction false} FrameBoundary(body: Text, rest: Text)
    requires |body| < TWO_32
    ensures NextFrame(Frame(body) + rest) ==
            if |body| <= 64 * 1024 * 1024 then Delivered(Parse(body, 0).result, rest)
            else Oversized(|body|, body + rest)
  {
    Inverse32(|body|, Put32(|body|));
    Regroup(Put32(|body|), body, rest);
    Split(Put32(|body|), body + rest);
    Split(body, rest);
  }

  /** One call on a stream that starts with a frame. */
  lemma {:induction false} OneCall(a: Link, call: Call, b: Link, body: Text, rest: Text)
    requires Exchange(call.args, a, call.result, b)
    requires a.inbox == Frame(body) + rest && |body| <= MAX_FRAME
    ensures !Lost(call.result) ==>
              && call.result == Parse(body, 0).result
              && b.inbox == rest && b.sent == a.sent + Request(call.args)
    ensures b.refusals == a.refusals ==> !Lost(call.result)
  {
    FrameBoundary(body, rest);
    ParseFaults(body, 0);
  }

  lemma {:induction false} FramesFrom(bodies: seq<Text>, tail: Text, k: nat)
    requires k < |bodies|
    ensures Frames(bodies[k..]) + tail == Frame(bodies[k]) + (Frames(bodies[k + 1..]) + tail)
  {
    assert bodies[k..][0] == bodies[k] && bodies[k..][1..] == bodies[k + 1..];
    Regroup(Frame(bodies[k]), Frames(bodies[k + 1..]), tail);
  }

  lemma {:induction false} RequestStreamStep(batch: seq<seq<Text>>, args: seq<Text>)
    ensures RequestStream(batch + [args]) == RequestStream(batch) + Request(args)
  {
    if batch == [] {
      assert [args][1..] == [];
      assert batch + [args] == [args];
    } else {
      RequestStreamStep(batch[1..], args);
      assert (batch + [args])[1..] == batch[1..] + [args];
    }
  }

  lemma {:induction false} SyncStep(
      a: Link, call: Call, b: Link, sent: Text, earlier: seq<Call>, bodies: seq<Text>, tail: Text, k: nat)
    requires Exchange(call.args, a, call.result, b) && !Lost(call.result)
    requires k < |bodies| && |bodies[k]| <= MAX_FRAME && a.inbox == Frames(bodies[k..]) + tail
    requires a.sent == sent + RequestStream(ArgLists(earlier))
    ensures b.inbox == Frames(bodies[k + 1..]) + tail
    ensures b.sent == sent + RequestStream(ArgLists(earlier + [call]))
    ensures call.result == Parse(bodies[k], 0).result
  {
    FramesFrom(bodies, tail, k);
    OneCall(a, call, b, bodies[k], Frames(bodies[k + 1..]) + tail);
    ArgListsStep(earlier, call);
    RequestStreamStep(ArgLists(earlier), call.args);
    Regroup(sent, RequestStream(ArgLists(earlier)), Request(call.args));
  }

  lemma {:induction false} ArgListsStep(calls: seq<Call>, call: Call)
    ensures ArgLists(calls + [call]) == ArgLists(calls) + [call.args]
  {
  }

  /** Before call `i` the reply stream stands at frame `i`, and the peer has been sent exactly the requests so far. */
  ghost predicate Synced(links: seq<Link>, calls: seq<Call>, bodies: seq<Text>, tail: Text, i: nat)
    requires i < |links| && i <= |calls| && i <= |bodies|
  {
    && links[i].inbox == Frames(bodies[i..]) + tail
    && links[i].sent == links[0].sent + RequestStream(ArgLists(calls[..i]))
  }

  lemma {:induction false} SyncedAt(links: seq<Link>, calls: seq<Call>, bodies: seq<Text>, tail: Text, i: nat)
    requires Session(links, calls) && i <= |calls| && i <= |bodies|
    requires links[0].inbox == Frames(bodies) + tail
    requires forall j | 0 <= j < |bodies| :: |bodies[j]| <= MAX_FRAME
    requires forall j | 0 <= j < i :: !Lost(calls[j].result)
    ensures Synced(links, calls, bodies, tail, i)
  {
    if i == 0 {
      assert bodies[0..] == bodies && calls[..0] == [];
    } else {
      var k := i - 1;
      SyncedAt(links, calls, bodies, tail, k);
      SyncStep(links[k], calls[k], links[k + 1], links[0].sent, calls[..k], bodies, tail, k);
      assert calls[..i] == calls[..k] + [calls[k]];
    }
  }

  /**
   Synchronisation. As long as no earlier call was lost, the i-th call returned the decoding
   of exactly the i-th frame, the stream stands at the next frame, and the peer has been sent
   exactly the requests so far. Bodies that do not decode, or carry trailing bytes, do not disturb it.
   */
  lemma {:induction false} Synchronised(links: seq<Link>, calls: seq<Call>, bodies: seq<Text>, tail: Text, i: nat)
    requires Session(links, calls) && i <= |calls| && i <= |bodies|
    requires links[0].inbox == Frames(bodies) + tail
    requires forall j | 0 <= j < |bodies| :: |bodies[j]| <= MAX_FRAME
    requires forall j | 0 <= j < i :: !Lost(calls[j].result)
    ensures Synced(links, calls, bodies, tail, i)
    ensures forall j | 0 <= j < i :: calls[j].result == Parse(bodies[j], 0).result
  {
    SyncedAt(links, calls, bodies, tail, i);
    forall j | 0 <= j < i
      ensures calls[j].result == Parse(bodies[j], 0).result
    {
      SyncedAt(links, calls, bodies, tail, j);
      SyncStep(links[j], calls[j], links[j + 1], links[0].sent, calls[..j], bodies, tail, j);
    }
  }

  /**
   Only the kernel or an oversized frame loses a call: if the peer sends enough frames within
   the limit and the kernel never refuses, every call of the session completes.
   */
  lemma {:induction false} NothingLost(links: seq<Link>, calls: seq<Call>, bodies: seq<Text>, tail: Text, i: nat)
    requires Session(links, calls) && i <= |calls| <= |bodies|
    requires links[0].inbox == Frames(bodies) + tail
    requires forall j | 0 <= j < |bodies| :: |bodies[j]| <= MAX_FRAME
    requires links[i].refusals == links[0].refusals
    ensures forall j | 0 <= j < i :: !Lost(calls[j].result)
  {
    if i > 0 {
      var k := i - 1;
      assert Exchange(calls[k].args, links[k], calls[k].result, links[i]);
      RefusalsGrow(links, calls, k);
      NothingLost(links, calls, bodies, tail, k);
      SyncedAt(links, calls, bodies, tail, k);
      FramesFrom(bodies, tail, k);
      OneCall(links[k], calls[k], links[i], bodies[k], Frames(bodies[i..]) + tail);
    }
  }

  lemma {:induction false} RefusalsGrow(links: seq<Link>, calls: seq<Call>, i: nat)
    requires Session(links, calls) && i <= |calls|
    ensures links[0].refusals <= links[i].refusals
  {
    if i > 0 {
      RefusalsGrow(links, calls, i - 1);
      assert Exchange(calls[i - 1].args, links[i - 1], calls[i - 1].result, links[i]);
    }
  }

  function Bodies(replies: seq<Response>): (bodies: seq<Text>)
    ensures |bodies| == |replies|
    ensures forall i | 0 <= i < |replies| :: bodies[i] == WireFormat.Enc(replies[i])
  {
    if replies == [] then [] else [WireFormat.Enc(replies[0])] + Bodies(replies[1..])
  }

  /**
   The conversation as both ends see it: against a peer that answers with encodings of
   `replies`, the client gets exactly those replies in order, and a reader of the bytes it
   sent recovers exactly the argument lists in order.
   */
  lemma {:induction false} Conversation(links: seq<Link>, calls: seq<Call>, replies: seq<Response>)
    requires Session(links, calls) && |replies| == |calls|
    requires forall j | 0 <= j < |replies| ::
               WireFormat.Encodable(replies[j]) && |WireFormat.Enc(replies[j])| <= MAX_FRAME
    requires forall j | 0 <= j < |calls| :: MessageSize(calls[j].args) < TWO_32
    requires links[0].inbox == Frames(Bodies(replies)) && links[|calls|].refusals == links[0].refusals
    ensures forall j | 0 <= j < |calls| :: calls[j].result == Ok(replies[j])
    ensures links[|calls|].inbox == []
    ensures ReadRequests(links[|calls|].sent, |links[0].sent|) == ArgLists(calls)
  {
    var n, bodies := |calls|, Bodies(replies);
    assert Frames(bodies) + [] == Frames(bodies);
    NothingLost(links, calls, bodies, [], n);
    Synchronised(links, calls, bodies, [], n);
    assert bodies[n..] == [] && calls[..n] == calls;
    forall j | 0 <= j < n
      ensures calls[j].result == Ok(replies[j])
    {
      DecodesExactly(bodies[j], 0, replies[j], |bodies[j]|);
    }
    StreamReadsBack(links[0].sent, ArgLists(calls));
  }

  lemma {:induction false} SessionStep(links: seq<Link>, calls: seq<Call>, call: Call, after: Link)
    requires Session(links, calls) && Exchange(call.args, links[|calls|], call.result, after)
    ensures Session(links + [after], calls + [call])
  {
    var more, done := links + [after], calls + [call];
    forall i | 0 <= i < |done|
      ensures Exchange(done[i].args, more[i], done[i].result, more[i + 1])
    {
      if i < |calls| {
        assert more[i] == links[i] && more[i + 1] == links[i + 1] && done[i] == calls[i];
      }
    }
  }

  /** A connected client calling `send` once per argument list is a session. */
  method Converse(client: RedisClient, wire: Wire, batch: seq<seq<Text>>)
      returns (calls: seq<Call>, ghost links: seq<Link>)
    requires client.fd >= 0 && forall j | 0 <= j < |batch| :: MessageSize(batch[j]) < TWO_32
    modifies wire
    ensures Session(links, calls) && ArgLists(calls) == batch
    ensures links[0] == old(wire.View()) && links[|calls|] == wire.View()
    decreases |batch|
  {
    calls, links := [], [wire.View()];
    if batch != [] {
      var last := |batch| - 1;
      calls, links := Converse(client, wire, batch[..last]);
      var call := OneSend(client, wire, batch[last]);
      SessionStep(links, calls, call, wire.View());
      ArgListsStep(calls, call);
      assert batch[..last] + [batch[last]] == batch;
      calls, links := calls + [call], links + [wire.View()];
    }
  }

  method OneSend(client: RedisClient, wire: Wire, args: seq<Text>) returns (call: Call)
    requires client.fd >= 0 && MessageSize(args) < TWO_32
    modifies wire
    ensures call.args == args && Exchange(args, old(wire.View()), call.result, wire.View())
  {
    var reply := client.Send(wire, args);
    call := Call(args, reply);
  }

  /**
   Both ends of a conversation, in the code's own terms: the kernel's chunking, the loops of the
   client and the peer's reader.
   */
  method AskAll(client: RedisClient, wire: Wire, batch: seq<seq<Text>>, ghost replies: seq<Response>)
      returns (calls: seq<Call>)
    requires client.fd >= 0 && forall j | 0 <= j < |batch| :: MessageSize(batch[j]) < TWO_32
    requires |replies| == |batch| && wire.inbox == Frames(Bodies(replies))
    requires forall j | 0 <= j < |replies| ::
               WireFormat.Encodable(replies[j]) && |WireFormat.Enc(replies[j])| <= MAX_FRAME
    modifies wire
    ensures |calls| == |batch|
    ensures wire.refusals == old(wire.refusals) ==>
              && (forall j | 0 <= j < |batch| :: calls[j] == Call(batch[j], Ok(replies[j])))
              && wire.inbox == [] && ReadRequests(wire.sent, |old(wire.sent)|) == batch
  {
    ghost var links;
    calls, links := Converse(client, wire, batch);
    assert forall j | 0 <= j < |calls| :: calls[j].args == ArgLists(calls)[j];
    if wire.refusals == old(wire.refusals) {
      Conversation(links, calls, replies);
    }
  }

  /**
   Chunking is invisible. Two sessions with the same calls on the same stream of arbitrary
   bytes, cut up differently, agree on every result until one of them meets a socket error.
   */
  lemma {:induction false} ChunkingInvisible(
      linksA: seq<Link>, callsA: seq<Call>, linksB: seq<Link>, callsB: seq<Call>, i: nat)
    requires Session(linksA, callsA) && Session(linksB, callsB) && i <= |callsA| && i <= |callsB|
    requires linksA[0].inbox == linksB[0].inbox && linksA[0].sent == linksB[0].sent
    requires forall j | 0 <= j < i :: callsA[j].args == callsB[j].args
    requires forall j | 0 <= j < i :: callsA[j].result.Err? ==> !callsA[j].result.error.SystemCall?
    requires forall j | 0 <= j < i :: callsB[j].result.Err? ==> !callsB[j].result.error.SystemCall?
    ensures linksA[i].inbox == linksB[i].inbox && linksA[i].sent == linksB[i].sent
    ensures forall j | 0 <= j < i :: callsA[j].result == callsB[j].result
  {
    if i > 0 {
      ChunkingInvisible(linksA, callsA, linksB, callsB, i - 1);
      assert Exchange(callsA[i - 1].args, linksA[i - 1], callsA[i - 1].result, linksA[i]);
      assert Exchange(callsB[i - 1].args, linksB[i - 1], callsB[i - 1].result, linksB[i]);
    }
  }

  /**
   `read_frame` does not check that the reply fills its frame: it returns `v` exactly when the
   body starts with the encoding of `v`, and the bytes after it are dropped.
   */
  lemma {:induction false} BodyDecodes(body: Text, v: Response)
    ensures Parse(body, 0).result == Ok(v)
       <==> WireFormat.Encodable(v) && |WireFormat.Enc(v)| <= |body| && body[..|WireFormat.Enc(v)|] == WireFormat.Enc(v)
  {
    ParseSound(body, 0);
    DecodesExactly(body, 0, v, |WireFormat.Enc(v)|);
  }
}
