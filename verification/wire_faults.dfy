/** Which error a reply cut short gives: the two the decoder has for missing bytes are told apart exactly. */
module WireFaults {
  import opened Bytes
  import opened Results
  import opened WireFormat
  import opened WireDecoder

  /** A reply, `v` itself or one inside it, begins at byte `k` of the encoding. */
  predicate StartsAt(v: Response, k: nat)
    decreases v, 1
  {
    k == 0 || (v.Arr? && k >= 5 && StartsIn(v.elems, k - 5))
  }

  predicate StartsIn(vs: seq<Response>, k: nat)
    decreases vs, 0
  {
    vs != [] && if k < |Enc(vs[0])| then StartsAt(vs[0], k) else StartsIn(vs[1..], k - |Enc(vs[0])|)
  }

  /** The buffer ends after the first `k` bytes of `s`, which stand at `pos`. */
  ghost predicate CutAt(buf: Text, pos: nat, s: Text, k: nat) {
    k < |s| && |buf| == pos + k && buf[pos..] == s[..k]
  }

  lemma {:induction false} CutPart(buf: Text, pos: nat, a: Text, b: Text, k: nat)
    requires CutAt(buf, pos, a + b, k)
    ensures k < |a| ==> CutAt(buf, pos, a, k)
    ensures k >= |a| ==> At(buf, pos, a) && CutAt(buf, pos + |a|, b, k - |a|)
  {
    if k < |a| {
      assert (a + b)[..k] == a[..k];
    } else {
      assert (a + b)[..k] == a + b[..k - |a|];
      assert buf[pos..pos + |a|] == buf[pos..][..|a|];
      assert buf[pos + |a|..] == buf[pos..][|a|..];
    }
  }

  /** A scalar reply, cut inside. */
  lemma {:induction false} CutScalar(buf: Text, pos: nat, v: Response, k: nat)
    requires Encodable(v) && !v.Arr? && CutAt(buf, pos, Enc(v), k) && k > 0
    ensures Parse(buf, pos).result == Err(Truncated)
  {
    CutTag(buf, pos, v, k);
    match v
    case Error(code, message) =>
      if k >= 9 {
        CutPart(buf, pos, [ERROR] + Put32(OfInt32(code)), Put32(|message|) + message, k);
        Associate([ERROR] + Put32(OfInt32(code)), Put32(|message|), message);
        CutPart(buf, pos + 5, Put32(|message|), message, k - 5);
        Load32At(buf, pos + 5, |message|);
      }
    case Str(text) =>
      if k >= 5 {
        Associate([STR], Put32(|text|), text);
        CutPart(buf, pos, [STR], Put32(|text|) + text, k);
        CutPart(buf, pos + 1, Put32(|text|), text, k - 1);
        Load32At(buf, pos + 1, |text|);
      }
    case _ =>
  }

  lemma {:induction false} Associate(a: Text, b: Text, c: Text)
    ensures a + b + c == a + (b + c)
  {
  }

  lemma {:induction false} CutTag(buf: Text, pos: nat, v: Response, k: nat)
    requires CutAt(buf, pos, Enc(v), k) && k > 0
    ensures buf[pos] == Enc(v)[0]
  {
    assert buf[pos] == buf[pos..][0];
  }

  /** Wherever a reply is cut: an empty body if a reply was about to begin, a truncated one otherwise. */
  lemma {:induction false} CutReply(buf: Text, pos: nat, v: Response, k: nat)
    requires Encodable(v) && CutAt(buf, pos, Enc(v), k)
    ensures Parse(buf, pos).result == Err(if StartsAt(v, k) then EmptyBody else Truncated)
    decreases v, 1
  {
    if k > 0 && v.Arr? {
      CutTag(buf, pos, v, k);
      var count, all := Put32(|v.elems|), EncAll(v.elems);
      if k >= 5 {
        CutPart(buf, pos, [ARR] + count, all, k);
        AtSplit(buf, pos, [ARR], count);
        Load32At(buf, pos + 1, |v.elems|);
        CutElems(buf, pos + 5, v.elems, k - 5);
      }
    } else if k > 0 {
      CutScalar(buf, pos, v, k);
    }
  }

  lemma {:induction false} CutElems(buf: Text, pos: nat, vs: seq<Response>, k: nat)
    requires (forall v | v in vs :: Encodable(v)) && CutAt(buf, pos, EncAll(vs), k)
    ensures ParseElems(buf, pos, |vs|).result == Err(if StartsIn(vs, k) then EmptyBody else Truncated)
    decreases vs, 0
  {
    var first := Enc(vs[0]);
    CutPart(buf, pos, first, EncAll(vs[1..]), k);
    if k < |first| {
      CutReply(buf, pos, vs[0], k);
    } else {
      ParseComplete(buf, pos, vs[0]);
      CutElems(buf, pos + |first|, vs[1..], k - |first|);
    }
  }

  /** For a whole reply: every strict prefix is rejected, with this error. */
  lemma {:induction false} StrictPrefixFault(v: Response, k: nat)
    requires Encodable(v) && k < |Enc(v)|
    ensures Parse(Enc(v)[..k], 0).result == Err(if StartsAt(v, k) then EmptyBody else Truncated)
  {
    CutReply(Enc(v)[..k], 0, v, k);
  }
}
