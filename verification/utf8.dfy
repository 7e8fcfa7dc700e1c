/** UTF-8 (RFC 3629) as a strict decoder accepts it, for the script's replies and for label values. */
module Utf8 {

  predicate Continuation(b: int) {
    0x80 <= b <= 0xBF
  }

  /** Length of the UTF-8 sequence `s` starts with, 0 if it starts with none (section 4). */
  function Head(s: seq<int>): (n: nat)
    ensures n <= |s|
  {
    if s == [] then 0
    else
      var b := s[0];
      if 0 <= b <= 0x7F then 1
      else if 0xC2 <= b <= 0xDF then
        if |s| >= 2 && Continuation(s[1]) then 2 else 0
      else if 0xE0 <= b <= 0xEF then
        if && |s| >= 3 && Continuation(s[1]) && Continuation(s[2])
           && (b == 0xE0 ==> s[1] >= 0xA0) && (b == 0xED ==> s[1] <= 0x9F) then 3 else 0
      else if 0xF0 <= b <= 0xF4 then
        if && |s| >= 4 && Continuation(s[1]) && Continuation(s[2]) && Continuation(s[3])
           && (b == 0xF0 ==> s[1] >= 0x90) && (b == 0xF4 ==> s[1] <= 0x8F) then 4 else 0
      else 0
  }

  predicate Valid(s: seq<int>) {
    s == [] || (Head(s) > 0 && Valid(s[Head(s)..]))
  }

  /** The bytes of a string in which every character stands for one byte. */
  function Codes(s: string): (r: seq<int>)
    ensures |r| == |s| && forall i | 0 <= i < |s| :: r[i] == s[i] as int
  {
    if s == "" then [] else [s[0] as int] + Codes(s[1..])
  }

  // ---- what it means ----

  /** Unicode scalar values: code points other than surrogates. */
  predicate IsScalar(c: int) {
    0 <= c <= 0x10FFFF && !(0xD800 <= c <= 0xDFFF)
  }

  function Encode(c: int): (s: seq<int>)
    requires IsScalar(c)
    ensures s != []
  {
    if c <= 0x7F then [c]
    else if c <= 0x7FF then [0xC0 + c / 64, 0x80 + c % 64]
    else if c <= 0xFFFF then [0xE0 + c / 64 / 64, 0x80 + c / 64 % 64, 0x80 + c % 64]
    else [0xF0 + c / 64 / 64 / 64, 0x80 + c / 64 / 64 % 64, 0x80 + c / 64 % 64, 0x80 + c % 64]
  }

  ghost predicate AllScalars(cs: seq<int>) {
    forall i | 0 <= i < |cs| :: IsScalar(cs[i])
  }

  function EncodeAll(cs: seq<int>): seq<int>
    requires AllScalars(cs)
  {
    if cs == [] then [] else Encode(cs[0]) + EncodeAll(cs[1..])
  }

  /** Six bits at a time. */
  lemma {:induction false} SixBits(high: int, low: int)
    requires 0 <= low < 64
    ensures (high * 64 + low) / 64 == high && (high * 64 + low) % 64 == low
  {
  }

  lemma {:induction false} Low(c: nat) returns (high: nat, low: nat)
    ensures high == c / 64 && low == c % 64 && c == high * 64 + low && low < 64
  {
    high, low := c / 64, c % 64;
  }

  lemma {:induction false} HeadOfEncoded(c: int, rest: seq<int>)
    requires IsScalar(c)
    ensures Head(Encode(c) + rest) == |Encode(c)|
  {
    var code, s := Encode(c), Encode(c) + rest;
    assert forall i | 0 <= i < |code| :: s[i] == code[i];
    if c > 0x7F {
      var h1, l1 := Low(c);
      if c > 0x7FF {
        var h2, l2 := Low(h1);
        if c > 0xFFFF {
          var h3, l3 := Low(h2);
          FourBytes(s, h3, l3, l2, l1);
        } else {
          ThreeBytes(s, h2, l2, l1);
        }
      }
    }
  }

  lemma {:induction false} ThreeBytes(s: seq<int>, x: nat, y: nat, z: nat)
    requires |s| >= 3 && s[0] == 0xE0 + x && s[1] == 0x80 + y && s[2] == 0x80 + z && y < 64 && z < 64
    requires 0x800 <= (x * 64 + y) * 64 + z <= 0xFFFF && IsScalar((x * 64 + y) * 64 + z)
    ensures Head(s) == 3
  {
  }

  lemma {:induction false} FourBytes(s: seq<int>, w: nat, x: nat, y: nat, z: nat)
    requires |s| >= 4 && s[0] == 0xF0 + w && s[1] == 0x80 + x && s[2] == 0x80 + y && s[3] == 0x80 + z
    requires x < 64 && y < 64 && z < 64 && 0x1_0000 <= ((w * 64 + x) * 64 + y) * 64 + z <= 0x10FFFF
    ensures Head(s) == 4
  {
  }

  lemma {:induction false} DecodeTwo(s: seq<int>) returns (c: int)
    requires Head(s) == 2
    ensures IsScalar(c) && Encode(c) == s[..2]
  {
    c := (s[0] - 0xC0) * 64 + (s[1] - 0x80);
    SixBits(s[0] - 0xC0, s[1] - 0x80);
  }

  lemma {:induction false} DecodeThree(s: seq<int>) returns (c: int)
    requires Head(s) == 3
    ensures IsScalar(c) && Encode(c) == s[..3]
  {
    var h := (s[0] - 0xE0) * 64 + (s[1] - 0x80);
    c := h * 64 + (s[2] - 0x80);
    SixBits(s[0] - 0xE0, s[1] - 0x80);
    SixBits(h, s[2] - 0x80);
  }

  lemma {:induction false} DecodeFour(s: seq<int>) returns (c: int)
    requires Head(s) == 4
    ensures IsScalar(c) && Encode(c) == s[..4]
  {
    var g := (s[0] - 0xF0) * 64 + (s[1] - 0x80);
    var h := g * 64 + (s[2] - 0x80);
    c := h * 64 + (s[3] - 0x80);
    SixBits(s[0] - 0xF0, s[1] - 0x80);
    SixBits(g, s[2] - 0x80);
    SixBits(h, s[3] - 0x80);
  }

  lemma {:induction false} HeadDecodes(s: seq<int>) returns (c: int)
    requires Head(s) > 0
    ensures IsScalar(c) && Encode(c) == s[..Head(s)]
  {
    if Head(s) == 1 {
      c := s[0];
    } else if Head(s) == 2 {
      c := DecodeTwo(s);
    } else if Head(s) == 3 {
      c := DecodeThree(s);
    } else {
      c := DecodeFour(s);
    }
  }

  lemma {:induction false} EncodedValid(cs: seq<int>)
    requires AllScalars(cs)
    ensures Valid(EncodeAll(cs))
  {
    if cs != [] {
      var rest := EncodeAll(cs[1..]);
      HeadOfEncoded(cs[0], rest);
      EncodedValid(cs[1..]);
      assert EncodeAll(cs)[|Encode(cs[0])|..] == rest;
    }
  }

  lemma {:induction false} EncodeCons(c: int, cs: seq<int>)
    requires IsScalar(c) && AllScalars(cs)
    ensures AllScalars([c] + cs) && EncodeAll([c] + cs) == Encode(c) + EncodeAll(cs)
  {
    assert ([c] + cs)[1..] == cs;
  }

  lemma {:induction false} Rejoin(s: seq<int>, n: nat)
    requires n <= |s|
    ensures s[..n] + s[n..] == s
  {
  }

  lemma {:induction false} ValidDecodes(s: seq<int>) returns (cs: seq<int>)
    requires Valid(s)
    ensures AllScalars(cs) && EncodeAll(cs) == s
  {
    cs := [];
    if s != [] {
      var n := Head(s);
      var c := HeadDecodes(s);
      var more := ValidDecodes(s[n..]);
      EncodeCons(c, more);
      Rejoin(s, n);
      cs := [c] + more;
    }
  }

  /** A byte string is valid exactly when it encodes some sequence of scalar values. */
  lemma {:induction false} ValidExactly(s: seq<int>)
    ensures Valid(s) <==> exists cs :: AllScalars(cs) && EncodeAll(cs) == s
  {
    if Valid(s) {
      var cs := ValidDecodes(s);
    }
    if exists cs :: AllScalars(cs) && EncodeAll(cs) == s {
      var cs :| AllScalars(cs) && EncodeAll(cs) == s;
      EncodedValid(cs);
    }
  }
}
