/**
 The binary reply format of `redis_client.cpp`: the tree a reply decodes to, and the
 encoder that the client never contains but its decoder inverts.
 */
module WireFormat {
  import opened Bytes

  const NIL: Byte := 0
  const ERROR: Byte := 1
  const STR: Byte := 2
  const INT: Byte := 3
  const DBL: Byte := 4
  const ARR: Byte := 5

  /** One reply. A double is its 64-bit pattern; the other constructors carry the fields their tag uses. */
  datatype Response =
    | Nil
    | Error(code: Int32, message: Text)
    | Str(text: Text)
    | Int(n: Int64)
    | Dbl(bits: UInt64)
    | Arr(elems: seq<Response>)

  /** Lengths and element counts fit their 32-bit fields, at every level. */
  predicate Encodable(r: Response) {
    match r
    case Error(_, message) => |message| < TWO_32
    case Str(text) => |text| < TWO_32
    case Arr(elems) => |elems| < TWO_32 && forall i | 0 <= i < |elems| :: Encodable(elems[i])
    case _ => true
  }

  function Enc(r: Response): (s: Text)
    ensures |s| > 0
    decreases r, 1
  {
    match r
    case Nil => [NIL]
    case Error(code, message) => [ERROR] + Put32(OfInt32(code)) + Put32(|message|) + message
    case Str(text) => [STR] + Put32(|text|) + text
    case Int(n) => [INT] + Put64(OfInt64(n))
    case Dbl(bits) => [DBL] + Put64(bits)
    case Arr(elems) => [ARR] + Put32(|elems|) + EncAll(elems)
  }

  function EncAll(rs: seq<Response>): (s: Text)
    decreases rs, 0
  {
    if rs == [] then [] else Enc(rs[0]) + EncAll(rs[1..])
  }

  /** Tree size and height: the number of `parse_value` calls a reply is worth, and how deep they nest. */
  function Nodes(r: Response): nat
    decreases r, 1
  {
    match r
    case Arr(elems) => 1 + NodesAll(elems)
    case _ => 1
  }

  function NodesAll(rs: seq<Response>): nat
    decreases rs, 0
  {
    if rs == [] then 0 else Nodes(rs[0]) + NodesAll(rs[1..])
  }

  function Max(a: nat, b: nat): nat {
    if a < b then b else a
  }

  function Height(r: Response): nat
    decreases r, 1
  {
    match r
    case Arr(elems) => 1 + HeightAll(elems)
    case _ => 1
  }

  function HeightAll(rs: seq<Response>): nat
    decreases rs, 0
  {
    if rs == [] then 0 else Max(Height(rs[0]), HeightAll(rs[1..]))
  }
}
