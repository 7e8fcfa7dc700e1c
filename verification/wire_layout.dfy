/**
 The wire in numbers: byte order, tag bytes and field offsets written out, with nothing taken
 from the constants that encoder and decoder share.
 */
module WireLayout {
  import opened Bytes
  import opened Results
  import opened WireFormat
  import opened WireDecoder

  // ---- byte order ----

  /** Four bytes of which the first counts 1 and the last 2^24. */
  function Sum4(a: int, b: int, c: int, d: int): int {
    a + 0x100 * b + 0x1_0000 * c + 0x100_0000 * d
  }

  lemma {:induction false} Load32Sum(s: Text)
    requires |s| == 4
    ensures Load32(s) == Sum4(s[0], s[1], s[2], s[3])
  {
    LoadTwo(s);
    LoadTwo(s[2..]);
  }

  lemma {:induction false} LoadTwo(s: Text)
    requires |s| >= 2
    ensures LoadLe(s) == Sum4(s[0], s[1], LoadLe(s[2..]), 0)
  {
    assert s[1..][0] == s[1] && s[1..][1..] == s[2..];
    assert LoadLe(s[1..]) == s[1] + 256 * LoadLe(s[2..]);
  }

  /** Of eight bytes the fifth counts 2^32. */
  lemma {:induction false} Load64Sum(s: Text)
    requires |s| == 8
    ensures Load64(s) == Sum4(s[0], s[1], s[2], s[3]) + 0x1_0000_0000 * Sum4(s[4], s[5], s[6], s[7])
  {
    var t, u := s[2..], s[4..];
    assert t[2..] == u && u[2..] == s[6..];
    LoadTwo(s);
    LoadTwo(t);
    LoadTwo(u);
    LoadTwo(u[2..]);
    assert u[2..][2..] == [];
  }

  /** And what is stored is exactly the bytes that count so. */
  lemma {:induction false} Put32Bytes(v: UInt32, s: Text)
    requires |s| == 4
    ensures Put32(v) == s <==> v == Sum4(s[0], s[1], s[2], s[3])
  {
    Load32Sum(s);
    Inverse32(v, s);
  }

  lemma {:induction false} Put64Bytes(v: UInt64, s: Text)
    requires |s| == 8
    ensures Put64(v) == s <==>
            v == Sum4(s[0], s[1], s[2], s[3]) + 0x1_0000_0000 * Sum4(s[4], s[5], s[6], s[7])
  {
    Load64Sum(s);
    Inverse64(v, s);
  }

  // ---- the six tags ----

  lemma {:induction false} Reads(v: Response, rest: Text)
    requires Encodable(v)
    ensures Parse(Enc(v) + rest, 0).result == Ok(v) && Parse(Enc(v) + rest, 0).pos == |Enc(v)|
  {
    assert (Enc(v) + rest)[0..|Enc(v)|] == Enc(v);
    ParseComplete(Enc(v) + rest, 0, v);
  }

  /** A reply of tag 0 is nil and one byte long. */
  lemma {:induction false} ReadsNil(rest: Text)
    ensures var r := Parse([0] + rest, 0); r.result == Ok(Nil) && r.pos == 1
  {
    Reads(Nil, rest);
  }

  /** Tag 1: four bytes of code in two's complement, four of length, the message. */
  lemma {:induction false} ReadsError(code: Int32, message: Text, rest: Text)
    requires |message| < 0x1_0000_0000
    ensures var unsigned := if code < 0 then code + 0x1_0000_0000 else code;
            var r := Parse([1] + Put32(unsigned) + Put32(|message|) + message + rest, 0);
            r.result == Ok(Response.Error(code, message)) && r.pos == 9 + |message|
  {
    Reads(Response.Error(code, message), rest);
  }

  /** Tag 2: four bytes of length, the text. */
  lemma {:induction false} ReadsText(text: Text, rest: Text)
    requires |text| < 0x1_0000_0000
    ensures var r := Parse([2] + Put32(|text|) + text + rest, 0);
            r.result == Ok(Str(text)) && r.pos == 5 + |text|
  {
    Reads(Str(text), rest);
  }

  /** Tag 3: eight bytes in two's complement. */
  lemma {:induction false} ReadsInteger(n: Int64, rest: Text)
    ensures var r := Parse([3] + Put64(if n < 0 then n + 0x1_0000_0000_0000_0000 else n) + rest, 0);
            r.result == Ok(Int(n)) && r.pos == 9
  {
    Reads(Int(n), rest);
  }

  /** Tag 4: the eight bytes of the double. */
  lemma {:induction false} ReadsDouble(bits: UInt64, rest: Text)
    ensures var r := Parse([4] + Put64(bits) + rest, 0);
            r.result == Ok(Dbl(bits)) && r.pos == 9
  {
    Reads(Dbl(bits), rest);
  }

  /** Tag 5: four bytes of count, then the elements, each a reply of its own. */
  lemma {:induction false} ReadsArray(elems: seq<Response>, rest: Text)
    requires |elems| < 0x1_0000_0000 && forall i | 0 <= i < |elems| :: Encodable(elems[i])
    ensures var r := Parse([5] + Put32(|elems|) + EncAll(elems) + rest, 0);
            r.result == Ok(Arr(elems)) && r.pos == 5 + |EncAll(elems)|
  {
    Reads(Arr(elems), rest);
  }

  /** Every other first byte is refused with its own number, and no byte after it is looked at. */
  lemma {:induction false} RefusesOtherTags(tag: Byte, rest: Text)
    requires tag > 5
    ensures var r := Parse([tag] + rest, 0); r.result == Err(UnknownTag(tag)) && r.pos == 1
  {
  }
}
