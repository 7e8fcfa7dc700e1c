/**
 `parse_value`: the recursive, cursor-advancing decoder. `Parse` is its specification on
 every input, `ParseValue` the imperative method that refines it, and the lemmas relate it
 to the encoder of WireFormat.
 */
module WireDecoder {
  import opened Bytes
  import opened Results
  import opened WireFormat

  /**
   What one call leaves behind: its result, the cursor (also after an error), the number of
   `parse_value` calls it made in all, and how deep they nested.
   */
  datatype Parsed<+T> = Parsed(result: Result<T>, pos: nat, calls: nat, depth: nat)

  function Leaf(result: Result<Response>, pos: nat): Parsed<Response> {
    Parsed(result, pos, 1, 1)
  }

  /** `buf.size() - pos`, an unsigned subtraction: every use must show it does not wrap. */
  function Remaining(buf: Text, pos: nat): (n: nat)
    requires pos <= |buf|
  {
    |buf| - pos
  }

  /** Bytes after `pos`; the termination measure, total because a caller may pass any cursor. */
  function Left(buf: Text, pos: nat): nat {
    if pos < |buf| then |buf| - pos else 0
  }

  /** The fields that follow each scalar tag; `p` is just past the tag byte. */
  function ParseError(buf: Text, p: nat): (r: Parsed<Response>)
    requires p <= |buf|
    ensures p <= r.pos <= |buf|
  {
    if Remaining(buf, p) < 8 then Leaf(Err(Truncated), p)
    else
      var code := AsInt32(Load32(buf[p..p + 4]));
      var len := Load32(buf[p + 4..p + 8]);
      if Remaining(buf, p + 8) < len then Leaf(Err(Truncated), p + 8)
      else Leaf(Ok(Response.Error(code, buf[p + 8..p + 8 + len])), p + 8 + len)
  }

  function ParseStr(buf: Text, p: nat): (r: Parsed<Response>)
    requires p <= |buf|
    ensures p <= r.pos <= |buf|
  {
    if Remaining(buf, p) < 4 then Leaf(Err(Truncated), p)
    else
      var len := Load32(buf[p..p + 4]);
      if Remaining(buf, p + 4) < len then Leaf(Err(Truncated), p + 4)
      else Leaf(Ok(Str(buf[p + 4..p + 4 + len])), p + 4 + len)
  }

  function ParseInt(buf: Text, p: nat): (r: Parsed<Response>)
    requires p <= |buf|
    ensures p <= r.pos <= |buf|
  {
    if Remaining(buf, p) < 8 then Leaf(Err(Truncated), p)
    else Leaf(Ok(Int(AsInt64(Load64(buf[p..p + 8])))), p + 8)
  }

  function ParseDbl(buf: Text, p: nat): (r: Parsed<Response>)
    requires p <= |buf|
    ensures p <= r.pos <= |buf|
  {
    if Remaining(buf, p) < 8 then Leaf(Err(Truncated), p)
    else Leaf(Ok(Dbl(Load64(buf[p..p + 8]))), p + 8)
  }

  function Parse(buf: Text, pos: nat): (r: Parsed<Response>)
    ensures pos >= |buf| ==> r.pos == pos && r.result.Err?
    ensures pos < |buf| ==> pos < r.pos <= |buf|
    decreases Left(buf, pos), 0, 0
  {
    if pos >= |buf| then Leaf(Err(EmptyBody), pos)
    else
      var tag, p := buf[pos], pos + 1;
      if tag == NIL then Leaf(Ok(Nil), p)
      else if tag == ERROR then ParseError(buf, p)
      else if tag == STR then ParseStr(buf, p)
      else if tag == INT then ParseInt(buf, p)
      else if tag == DBL then ParseDbl(buf, p)
      else if tag == ARR then
        if Remaining(buf, p) < 4 then Leaf(Err(Truncated), p)
        else
          var es := ParseElems(buf, p + 4, Load32(buf[p..p + 4]));
          var result := match es.result case Ok(vs) => Ok(Arr(vs)) case Err(e) => Err(e);
          Parsed(result, es.pos, 1 + es.calls, 1 + es.depth)
      else Leaf(Err(UnknownTag(tag)), p)
  }

  /** `count` replies in a row, stopping at the first one that fails. */
  function ParseElems(buf: Text, pos: nat, count: nat): (r: Parsed<seq<Response>>)
    requires pos <= |buf|
    ensures pos <= r.pos <= |buf|
    ensures r.result.Ok? ==> |r.result.value| == count
    decreases Left(buf, pos), 1, count
  {
    if count == 0 then Parsed(Ok([]), pos, 0, 0)
    else
      var head := Parse(buf, pos);
      match head.result
      case Err(e) => Parsed(Err(e), head.pos, head.calls, head.depth)
      case Ok(v) =>
        var tail := ParseElems(buf, head.pos, count - 1);
        var result := match tail.result case Ok(vs) => Ok([v] + vs) case Err(e) => Err(e);
        Parsed(result, tail.pos, head.calls + tail.calls, Max(head.depth, tail.depth))
  }

  /**
   The decoder as written: the cursor moves as fields are read. `start` and `pos` are the two
   ends of the by-reference cursor.
   */
  method ParseValue(buf: Text, start: nat) returns (r: Result<Response>, pos: nat, ghost calls: nat, ghost depth: nat)
    ensures r == Parse(buf, start).result && pos == Parse(buf, start).pos
    ensures calls == Parse(buf, start).calls && depth == Parse(buf, start).depth
    decreases Left(buf, start), 1
  {
    pos, calls, depth := start, 1, 1;
    if pos >= |buf| {
      return Err(EmptyBody), pos, calls, depth;
    }
    var tag := buf[pos];
    pos := pos + 1;
    if tag == NIL {
      r := Ok(Nil);
    } else if tag == ERROR {
      if Remaining(buf, pos) < 8 { return Err(Truncated), pos, calls, depth; }
      var code := AsInt32(Load32(buf[pos..pos + 4]));
      pos := pos + 4;
      var len := Load32(buf[pos..pos + 4]);
      pos := pos + 4;
      if Remaining(buf, pos) < len { return Err(Truncated), pos, calls, depth; }
      r := Ok(Response.Error(code, buf[pos..pos + len]));
      pos := pos + len;
    } else if tag == STR {
      if Remaining(buf, pos) < 4 { return Err(Truncated), pos, calls, depth; }
      var len := Load32(buf[pos..pos + 4]);
      pos := pos + 4;
      if Remaining(buf, pos) < len { return Err(Truncated), pos, calls, depth; }
      r := Ok(Str(buf[pos..pos + len]));
      pos := pos + len;
    } else if tag == INT {
      if Remaining(buf, pos) < 8 { return Err(Truncated), pos, calls, depth; }
      r := Ok(Int(AsInt64(Load64(buf[pos..pos + 8]))));
      pos := pos + 8;
    } else if tag == DBL {
      if Remaining(buf, pos) < 8 { return Err(Truncated), pos, calls, depth; }
      r := Ok(Dbl(Load64(buf[pos..pos + 8])));
      pos := pos + 8;
    } else if tag == ARR {
      if Remaining(buf, pos) < 4 { return Err(Truncated), pos, calls, depth; }
      var count := Load32(buf[pos..pos + 4]);
      pos := pos + 4;
      r, pos, calls, depth := ParseArr(buf, pos, count);
    } else {
      r := Err(UnknownTag(tag));
    }
  }

  /** The element loop of the array case: it appends to the reply's `arr` until one element fails. */
  method ParseArr(buf: Text, start: nat, count: UInt32)
    returns (r: Result<Response>, pos: nat, ghost calls: nat, ghost depth: nat)
    requires start <= |buf|
    ensures pos == ParseElems(buf, start, count).pos
    ensures r == match ParseElems(buf, start, count).result case Ok(vs) => Ok(Arr(vs)) case Err(e) => Err(e)
    ensures calls == 1 + ParseElems(buf, start, count).calls && depth == 1 + ParseElems(buf, start, count).depth
    decreases Left(buf, start), 2
  {
    var arr: seq<Response> := [];
    pos, calls, depth := start, 1, 1;
    PrependNothing(ParseElems(buf, start, count));
    for i := 0 to count
      invariant start <= pos <= |buf| && |arr| == i
      invariant calls >= 1 && depth >= 1
      invariant ParseElems(buf, start, count) == Prepend(arr, calls - 1, depth - 1, ParseElems(buf, pos, count - i))
    {
      var elem, next, c, d := ParseValue(buf, pos);
      pos, calls, depth := next, calls + c, Max(depth, 1 + d);
      if elem.Err? {
        return elem, pos, calls, depth;
      }
      PrependOne(arr, elem.value, ParseElems(buf, pos, count - i - 1));
      arr := arr + [elem.value];
    }
    assert arr + [] == arr;
    r := Ok(Arr(arr));
  }

  /** The outcome of an element loop that has already read `done` and has `rest` to come. */
  ghost function Prepend(done: seq<Response>, calls: nat, depth: nat, rest: Parsed<seq<Response>>)
    : Parsed<seq<Response>>
  {
    var result := match rest.result case Ok(vs) => Ok(done + vs) case Err(e) => Err(e);
    Parsed(result, rest.pos, calls + rest.calls, Max(depth, rest.depth))
  }

  lemma {:induction false} PrependOne(done: seq<Response>, v: Response, rest: Parsed<seq<Response>>)
    ensures rest.result.Ok? ==> done + [v] + rest.result.value == done + ([v] + rest.result.value)
  {
  }

  lemma {:induction false} PrependNothing(rest: Parsed<seq<Response>>)
    ensures Prepend([], 0, 0, rest) == rest
  {
    if rest.result.Ok? {
      assert [] + rest.result.value == rest.result.value;
    }
  }

  // ---- the decoder is sound and canonical ----

  /** Outcome `r` of a call at `pos` is either an error or the reply whose encoding it consumed. */
  ghost predicate Sound(buf: Text, pos: nat, r: Parsed<Response>) {
    r.result.Ok? ==>
      && pos <= r.pos <= |buf|
      && Encodable(r.result.value)
      && buf[pos..r.pos] == Enc(r.result.value)
      && r.calls == Nodes(r.result.value)
      && r.depth == Height(r.result.value)
  }

  lemma {:induction false} ErrorAgain(code: Text, length: Text, message: Text)
    requires |code| == 4 && |length| == 4 && Load32(length) == |message|
    ensures var v := Response.Error(AsInt32(Load32(code)), message);
            Encodable(v) && Enc(v) == [ERROR] + code + length + message
  {
    Inverse32(0, code);
    Inverse32(0, length);
  }

  lemma {:induction false} ErrorSound(buf: Text, pos: nat)
    requires pos < |buf| && buf[pos] == ERROR
    ensures Sound(buf, pos, ParseError(buf, pos + 1))
  {
    var p, r := pos + 1, ParseError(buf, pos + 1);
    if r.result.Ok? {
      var a, b, message := buf[p..p + 4], buf[p + 4..p + 8], buf[p + 8..r.pos];
      ErrorAgain(a, b, message);
      assert r.result.value == Response.Error(AsInt32(Load32(a)), message);
      Slices4(buf, pos, p, p + 4, p + 8, r.pos);
      assert buf[pos..p] == [ERROR];
    }
  }

  lemma {:induction false} Slices4(buf: Text, a: nat, b: nat, c: nat, d: nat, e: nat)
    requires a <= b <= c <= d <= e <= |buf|
    ensures buf[a..e] == buf[a..b] + buf[b..c] + buf[c..d] + buf[d..e]
  {
    Cut(buf, a, b, c);
    Cut(buf, a, c, d);
    Cut(buf, a, d, e);
  }

  lemma {:induction false} StrSound(buf: Text, pos: nat)
    requires pos < |buf| && buf[pos] == STR
    ensures Sound(buf, pos, ParseStr(buf, pos + 1))
  {
    var p, r := pos + 1, ParseStr(buf, pos + 1);
    if r.result.Ok? {
      Inverse32(0, buf[p..p + 4]);
      Cut(buf, pos, p, p + 4);
      Cut(buf, pos, p + 4, r.pos);
      assert buf[pos..p] == [STR];
    }
  }

  lemma {:induction false} NumberSound(buf: Text, pos: nat)
    requires pos < |buf|
    ensures buf[pos] == INT ==> Sound(buf, pos, ParseInt(buf, pos + 1))
    ensures buf[pos] == DBL ==> Sound(buf, pos, ParseDbl(buf, pos + 1))
  {
    var p := pos + 1;
    if Remaining(buf, p) >= 8 {
      Inverse64(0, buf[p..p + 8]);
      Cut(buf, pos, p, p + 8);
      assert buf[pos..p] == [buf[pos]];
    }
  }

  /** Every reply but an array. */
  lemma {:induction false} LeafSound(buf: Text, pos: nat)
    requires pos < |buf| && buf[pos] != ARR
    ensures Sound(buf, pos, Parse(buf, pos))
  {
    if buf[pos] == ERROR {
      ErrorSound(buf, pos);
    } else if buf[pos] == STR {
      StrSound(buf, pos);
    } else {
      NumberSound(buf, pos);
    }
  }

  ghost predicate ElemsFit(buf: Text, pos: nat, r: Parsed<seq<Response>>) {
    r.result.Ok? ==>
      && pos <= r.pos <= |buf|
      && (forall i | 0 <= i < |r.result.value| :: Encodable(r.result.value[i]))
      && buf[pos..r.pos] == EncAll(r.result.value)
      && r.calls == NodesAll(r.result.value)
      && r.depth == HeightAll(r.result.value)
  }

  lemma {:induction false} ArrSound(buf: Text, pos: nat)
    requires pos < |buf| && buf[pos] == ARR && Remaining(buf, pos + 1) >= 4
    requires ElemsFit(buf, pos + 5, ParseElems(buf, pos + 5, Load32(buf[pos + 1..pos + 5])))
    ensures Sound(buf, pos, Parse(buf, pos))
  {
    var count := buf[pos + 1..pos + 5];
    var es := ParseElems(buf, pos + 5, Load32(count));
    if es.result.Ok? {
      Inverse32(0, count);
      Cut(buf, pos, pos + 1, pos + 5);
      Cut(buf, pos, pos + 5, es.pos);
      assert buf[pos..pos + 1] == [ARR];
      assert buf[pos..es.pos] == Enc(Arr(es.result.value));
      assert Parse(buf, pos) == Parsed(Ok(Arr(es.result.value)), es.pos, 1 + es.calls, 1 + es.depth);
    }
  }

  /** Whatever is accepted is exactly an encoding, and costs one call per tree node. */
  lemma {:induction false} ParseSound(buf: Text, pos: nat)
    ensures Sound(buf, pos, Parse(buf, pos))
    decreases Left(buf, pos), 0, 0
  {
    if pos < |buf| {
      if buf[pos] != ARR {
        LeafSound(buf, pos);
      } else if Remaining(buf, pos + 1) >= 4 {
        ElemsSound(buf, pos + 5, Load32(buf[pos + 1..pos + 5]));
        ArrSound(buf, pos);
      }
    }
  }

  lemma {:induction false} ElementFirst(v: Response, vs: seq<Response>)
    ensures EncAll([v] + vs) == Enc(v) + EncAll(vs)
    ensures NodesAll([v] + vs) == Nodes(v) + NodesAll(vs)
    ensures HeightAll([v] + vs) == Max(Height(v), HeightAll(vs))
  {
    assert ([v] + vs)[0] == v && ([v] + vs)[1..] == vs;
  }

  lemma {:induction false} ElemsSound(buf: Text, pos: nat, count: nat)
    requires pos <= |buf|
    ensures ElemsFit(buf, pos, ParseElems(buf, pos, count))
    decreases Left(buf, pos), 1, count
  {
    var r := ParseElems(buf, pos, count);
    if count > 0 && r.result.Ok? {
      var head := Parse(buf, pos);
      ParseSound(buf, pos);
      ElemsSound(buf, head.pos, count - 1);
      ElementFirst(head.result.value, ParseElems(buf, head.pos, count - 1).result.value);
      Cut(buf, pos, head.pos, r.pos);
    }
  }

  // ---- and complete ----

  lemma {:induction false} EncAllSplit(buf: Text, pos: nat, vs: seq<Response>)
    requires vs != [] && At(buf, pos, EncAll(vs))
    ensures At(buf, pos, Enc(vs[0])) && At(buf, pos + |Enc(vs[0])|, EncAll(vs[1..]))
    ensures |EncAll(vs)| == |Enc(vs[0])| + |EncAll(vs[1..])|
  {
    AtSplit(buf, pos, Enc(vs[0]), EncAll(vs[1..]));
  }

  lemma {:induction false} ErrorComplete(buf: Text, pos: nat, v: Response)
    requires v.Error? && Encodable(v) && At(buf, pos, Enc(v))
    ensures ParseError(buf, pos + 1) == Leaf(Ok(v), pos + |Enc(v)|)
  {
    var code, len, message := Put32(OfInt32(v.code)), Put32(|v.message|), v.message;
    AtSplit3(buf, pos, [ERROR] + code, len, message);
    AtSplit(buf, pos, [ERROR], code);
    Load32At(buf, pos + 1, OfInt32(v.code));
    Load32At(buf, pos + 5, |message|);
  }

  lemma {:induction false} StrComplete(buf: Text, pos: nat, v: Response)
    requires v.Str? && Encodable(v) && At(buf, pos, Enc(v))
    ensures ParseStr(buf, pos + 1) == Leaf(Ok(v), pos + |Enc(v)|)
  {
    var len := Put32(|v.text|);
    AtSplit3(buf, pos, [STR], len, v.text);
    Load32At(buf, pos + 1, |v.text|);
  }

  lemma {:induction false} NumberComplete(buf: Text, pos: nat, v: Response)
    requires At(buf, pos, Enc(v))
    ensures v.Int? ==> ParseInt(buf, pos + 1) == Leaf(Ok(v), pos + |Enc(v)|)
    ensures v.Dbl? ==> ParseDbl(buf, pos + 1) == Leaf(Ok(v), pos + |Enc(v)|)
  {
    if v.Int? || v.Dbl? {
      var n := if v.Int? then OfInt64(v.n) else v.bits;
      AtSplit(buf, pos, [Enc(v)[0]], Put64(n));
      Inverse64(n, Put64(n));
    }
  }

  /** Wherever the encoding of a reply stands, the decoder reads that reply and stops at its end. */
  lemma {:induction false} ParseComplete(buf: Text, pos: nat, v: Response)
    requires Encodable(v) && At(buf, pos, Enc(v))
    ensures Parse(buf, pos) == Parsed(Ok(v), pos + |Enc(v)|, Nodes(v), Height(v))
    decreases v, 1
  {
    FirstByte(buf, pos, Enc(v));
    NumberComplete(buf, pos, v);
    match v
    case Error(_, _) => ErrorComplete(buf, pos, v);
    case Str(_) => StrComplete(buf, pos, v);
    case Arr(elems) =>
      ArrSplit(buf, pos, elems);
      ElemsComplete(buf, pos + 5, elems);
    case _ =>
  }

  lemma {:induction false} ArrSplit(buf: Text, pos: nat, elems: seq<Response>)
    requires |elems| < TWO_32 && At(buf, pos, Enc(Arr(elems)))
    ensures buf[pos] == ARR && pos + 5 <= |buf| && Load32(buf[pos + 1..pos + 5]) == |elems|
    ensures At(buf, pos + 5, EncAll(elems)) && |Enc(Arr(elems))| == 5 + |EncAll(elems)|
  {
    AtSplit3(buf, pos, [ARR], Put32(|elems|), EncAll(elems));
    FirstByte(buf, pos, [ARR]);
    Load32At(buf, pos + 1, |elems|);
  }

  lemma {:induction false} ElemsStep(buf: Text, pos: nat, count: nat)
    requires pos <= |buf| && Parse(buf, pos).result.Ok?
    requires ParseElems(buf, Parse(buf, pos).pos, count).result.Ok?
    ensures var head := Parse(buf, pos);
            var tail := ParseElems(buf, head.pos, count);
            ParseElems(buf, pos, count + 1) ==
            Parsed(Ok([head.result.value] + tail.result.value), tail.pos, head.calls + tail.calls,
                Max(head.depth, tail.depth))
  {
  }

  /** The replies `vs` are what is read at `pos`, in full and at the cost of their nodes. */
  ghost predicate DecodesAll(buf: Text, pos: nat, vs: seq<Response>) {
    && pos <= |buf|
    && ParseElems(buf, pos, |vs|) == Parsed(Ok(vs), pos + |EncAll(vs)|, NodesAll(vs), HeightAll(vs))
  }

  lemma {:induction false} ElemsJoin(buf: Text, pos: nat, vs: seq<Response>)
    requires vs != [] && At(buf, pos, Enc(vs[0]))
    requires Parse(buf, pos) == Parsed(Ok(vs[0]), pos + |Enc(vs[0])|, Nodes(vs[0]), Height(vs[0]))
    requires DecodesAll(buf, pos + |Enc(vs[0])|, vs[1..])
    ensures DecodesAll(buf, pos, vs)
  {
    ElemsStep(buf, pos, |vs| - 1);
    assert [vs[0]] + vs[1..] == vs;
  }

  lemma {:induction false} ElemsComplete(buf: Text, pos: nat, vs: seq<Response>)
    requires (forall v | v in vs :: Encodable(v)) && At(buf, pos, EncAll(vs))
    ensures DecodesAll(buf, pos, vs)
    decreases vs, 0
  {
    if vs != [] {
      EncAllSplit(buf, pos, vs);
      ParseComplete(buf, pos, vs[0]);
      ElemsComplete(buf, pos + |Enc(vs[0])|, vs[1..]);
      ElemsJoin(buf, pos, vs);
    }
  }

  /** The two together: decoding and encoding are exact inverses, at every position of every buffer. */
  lemma {:induction false} DecodesExactly(buf: Text, pos: nat, v: Response, end: nat)
    ensures (Parse(buf, pos).result == Ok(v) && Parse(buf, pos).pos == end)
       <==> (Encodable(v) && pos <= end <= |buf| && buf[pos..end] == Enc(v))
  {
    ParseSound(buf, pos);
    if Encodable(v) && pos <= end <= |buf| && buf[pos..end] == Enc(v) {
      ParseComplete(buf, pos, v);
    }
  }

  /** The round trip, with arbitrary bytes on either side. */
  lemma {:induction false} RoundTrip(before: Text, v: Response, rest: Text)
    requires Encodable(v)
    ensures var r := Parse(before + Enc(v) + rest, |before|);
            r.result == Ok(v) && r.pos == |before| + |Enc(v)|
  {
    var s := before + Enc(v) + rest;
    assert s[|before|..|before| + |Enc(v)|] == Enc(v);
    DecodesExactly(s, |before|, v, |before| + |Enc(v)|);
  }

  /** No encoding is a prefix of another: the format needs no delimiter. */
  lemma {:induction false} PrefixFree(v: Response, x: Text, w: Response, y: Text)
    requires Encodable(v) && Encodable(w)
    requires Enc(v) + x == Enc(w) + y
    ensures v == w && x == y
  {
    var s := Enc(v) + x;
    assert s[0..|Enc(v)|] == Enc(v) && s[0..|Enc(w)|] == Enc(w);
    DecodesExactly(s, 0, v, |Enc(v)|);
    DecodesExactly(s, 0, w, |Enc(w)|);
    assert x == s[|Enc(v)|..] && y == s[|Enc(w)|..];
  }

  /** A reply cut short anywhere is rejected, never decoded to a different tree. */
  lemma {:induction false} StrictPrefixRejected(v: Response, k: nat)
    requires Encodable(v) && k < |Enc(v)|
    ensures Parse(Enc(v)[..k], 0).result.Err?
  {
    var cut := Enc(v)[..k];
    var r := Parse(cut, 0);
    if r.result.Ok? {
      ParseSound(cut, 0);
      assert Enc(r.result.value) + Enc(v)[r.pos..] == Enc(v) + [];
      PrefixFree(r.result.value, Enc(v)[r.pos..], v, []);
    }
  }

  // ---- work ----

  /**
   On every input, whatever element counts it claims: calls are linear in the bytes left,
   and nesting in a fifth of them.
   */
  lemma {:induction false} WorkBound(buf: Text, pos: nat)
    ensures var r := Parse(buf, pos);
            && r.calls <= Left(buf, pos) + 1
            && r.depth <= Left(buf, pos) / 5 + 1
            && (r.result.Ok? ==> r.calls <= r.pos - pos && Nodes(r.result.value) <= r.pos - pos)
    decreases Left(buf, pos), 0, 0
  {
    ParseSound(buf, pos);
    if pos < |buf| && buf[pos] == ARR && Remaining(buf, pos + 1) >= 4 {
      ElemsWorkBound(buf, pos + 5, Load32(buf[pos + 1..pos + 5]));
    }
  }

  lemma {:induction false} ElemsWorkBound(buf: Text, pos: nat, count: nat)
    requires pos <= |buf|
    ensures var r := ParseElems(buf, pos, count);
            && r.calls <= Left(buf, pos) + 1
            && r.depth <= Left(buf, pos) / 5 + 1
            && (r.result.Ok? ==> r.calls <= r.pos - pos)
    decreases Left(buf, pos), 1, count
  {
    if count > 0 {
      WorkBound(buf, pos);
      var head := Parse(buf, pos);
      if head.result.Ok? {
        ElemsWorkBound(buf, head.pos, count - 1);
      }
    }
  }

  // ---- errors ----

  /** The decoder's own errors are protocol errors about the body, never those of the socket or the frame. */
  predicate BodyFault<T>(r: Result<T>) {
    r.Err? ==> r.error == EmptyBody || r.error == Truncated || r.error.UnknownTag?
  }

  lemma {:induction false} ParseFaults(buf: Text, pos: nat)
    ensures BodyFault(Parse(buf, pos).result)
    decreases Left(buf, pos), 0, 0
  {
    if pos < |buf| && buf[pos] == ARR && Remaining(buf, pos + 1) >= 4 {
      ElemsFaults(buf, pos + 5, Load32(buf[pos + 1..pos + 5]));
    }
  }

  lemma {:induction false} ElemsFaults(buf: Text, pos: nat, count: nat)
    requires pos <= |buf|
    ensures BodyFault(ParseElems(buf, pos, count).result)
    decreases Left(buf, pos), 1, count
  {
    if count > 0 {
      ParseFaults(buf, pos);
      var head := Parse(buf, pos);
      if head.result.Ok? {
        ElemsFaults(buf, head.pos, count - 1);
      }
    }
  }
}
