/** Fixed-width little-endian integers, as `load_le` and `put_le` read and write them. */
module Bytes {

  type Byte = x: int | 0 <= x < 256

  /** A C++ std::string or a raw buffer: any bytes, no encoding. */
  type Text = seq<Byte>

  const TWO_31 := 0x8000_0000
  const TWO_32 := 0x1_0000_0000
  const TWO_63 := 0x8000_0000_0000_0000
  const TWO_64 := 0x1_0000_0000_0000_0000

  type UInt32 = n: int | 0 <= n < TWO_32
  type UInt64 = n: int | 0 <= n < TWO_64
  type Int32 = n: int | -TWO_31 <= n < TWO_31
  type Int64 = n: int | -TWO_63 <= n < TWO_63

  function Pow256(k: nat): (p: nat)
    ensures p > 0
  {
    if k == 0 then 1 else 256 * Pow256(k - 1)
  }

  lemma {:induction false} Widths()
    ensures Pow256(4) == TWO_32 && Pow256(8) == TWO_64
  {
    assert Pow256(2) == 0x1_0000;
    assert Pow256(4) == TWO_32;
    assert Pow256(6) == 0x1_0000_0000_0000;
  }

  /** The `width` low-order bytes of `v`, least significant first. */
  function PutLe(v: nat, width: nat): (s: Text)
    ensures |s| == width
  {
    if width == 0 then [] else [v % 256] + PutLe(v / 256, width - 1)
  }

  function LoadLe(s: Text): (v: nat)
    ensures v < Pow256(|s|)
  {
    if s == [] then 0 else s[0] + 256 * LoadLe(s[1..])
  }

  /** Loading what was stored gives the value back, for every value that fits. */
  lemma {:induction false} LoadPut(v: nat, width: nat)
    requires v < Pow256(width)
    ensures LoadLe(PutLe(v, width)) == v
  {
    if width > 0 {
      LoadPut(v / 256, width - 1);
      assert PutLe(v, width)[1..] == PutLe(v / 256, width - 1);
    }
  }

  /** Storing what was loaded gives the bytes back: no integer has two representations. */
  lemma {:induction false} PutLoad(s: Text)
    ensures PutLe(LoadLe(s), |s|) == s
  {
    if s != [] {
      PutLoad(s[1..]);
      assert LoadLe(s) % 256 == s[0] && LoadLe(s) / 256 == LoadLe(s[1..]);
    }
  }

  /** The 4- and 8-byte loads, with the ranges of their C++ types. */
  function Load32(s: Text): (v: UInt32)
    requires |s| == 4
  {
    Widths();
    LoadLe(s)
  }

  function Load64(s: Text): (v: UInt64)
    requires |s| == 8
  {
    Widths();
    LoadLe(s)
  }

  const SIZE_32: nat := 4
  const SIZE_64: nat := 8

  function Put32(v: nat): (s: Text)
    ensures |s| == 4
  {
    PutLe(v, SIZE_32)
  }

  function Put64(v: nat): (s: Text)
    ensures |s| == 8
  {
    PutLe(v, SIZE_64)
  }

  lemma {:induction false} Inverse32(v: UInt32, s: Text)
    requires |s| == 4
    ensures Load32(Put32(v)) == v && Put32(Load32(s)) == s
  {
    Widths();
    LoadPut(v, 4);
    PutLoad(s);
  }

  lemma {:induction false} Inverse64(v: UInt64, s: Text)
    requires |s| == 8
    ensures Load64(Put64(v)) == v && Put64(Load64(s)) == s
  {
    Widths();
    LoadPut(v, 8);
    PutLoad(s);
  }

  /** `static_cast<int32_t>` of a uint32_t, two's complement, and its inverse. */
  function AsInt32(v: UInt32): (i: Int32) {
    if v < TWO_31 then v else v - TWO_32
  }

  function OfInt32(i: Int32): (v: UInt32)
    ensures AsInt32(v) == i
  {
    if i < 0 then i + TWO_32 else i
  }

  function AsInt64(v: UInt64): (i: Int64) {
    if v < TWO_63 then v else v - TWO_64
  }

  function OfInt64(i: Int64): (v: UInt64)
    ensures AsInt64(v) == i
  {
    if i < 0 then i + TWO_64 else i
  }

  lemma {:induction false} Split(a: Text, b: Text)
    ensures (a + b)[..|a|] == a && (a + b)[|a|..] == b
  {
  }

  /** Cutting a slice in two. */
  lemma {:induction false} Cut(buf: Text, a: nat, b: nat, c: nat)
    requires a <= b <= c <= |buf|
    ensures buf[a..c] == buf[a..b] + buf[b..c]
  {
  }

  /** `s` stands in `buf` at `pos`. */
  ghost predicate At(buf: Text, pos: nat, s: Text) {
    pos + |s| <= |buf| && buf[pos..pos + |s|] == s
  }

  lemma {:induction false} AtSplit(buf: Text, pos: nat, a: Text, b: Text)
    requires At(buf, pos, a + b)
    ensures At(buf, pos, a) && At(buf, pos + |a|, b)
  {
    assert (a + b)[..|a|] == a && (a + b)[|a|..] == b;
    assert buf[pos..pos + |a|] == buf[pos..pos + |a + b|][..|a|];
    assert buf[pos + |a|..pos + |a| + |b|] == buf[pos..pos + |a + b|][|a|..];
  }

  lemma {:induction false} AtSplit3(buf: Text, pos: nat, a: Text, b: Text, c: Text)
    requires At(buf, pos, a + b + c)
    ensures At(buf, pos, a) && At(buf, pos + |a|, b) && At(buf, pos + |a| + |b|, c)
  {
    AtSplit(buf, pos, a + b, c);
    AtSplit(buf, pos, a, b);
  }

  lemma {:induction false} FirstByte(buf: Text, pos: nat, s: Text)
    requires At(buf, pos, s) && s != []
    ensures buf[pos] == s[0]
  {
    assert buf[pos] == buf[pos..pos + |s|][0];
  }

  /** Reading back a stored length. */
  lemma {:induction false} Load32At(buf: Text, pos: nat, v: nat)
    requires v < TWO_32 && At(buf, pos, Put32(v))
    ensures pos + 4 <= |buf| && Load32(buf[pos..pos + 4]) == v
  {
    Inverse32(v, Put32(v));
  }
}
