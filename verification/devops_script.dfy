/**
 The second implementation of the wire format: the Python embedded in `devops.sh`. Items are
 kept as the values Python computes, before `str` and `decode` turn them into text.
 */
module DevopsScript {
  import opened Bytes
  import opened Requests
  import opened Sequences
  import WireFormat
  import opened WireDecoder
  import Results
  import Utf8

  type Response = WireFormat.Response

  /** A Python call either returns or raises (`struct.error`, `IndexError`, `UnicodeDecodeError`). */
  datatype Py<+T> = Returned(value: T) | Raised

  // ---- send_cmd ----

  /** `struct.pack('<I', n)`. */
  function Pack(n: nat): Py<Text> {
    if n < TWO_32 then Returned(Put32(n)) else Raised
  }

  /**
   The message `send_cmd` builds; it raises where a length does not fit its field. It still builds
   payloads of 2^32 - 4 bytes and more, for which the C++ client's size sum has wrapped.
   */
  method BuildMessage(args: seq<Text>) returns (r: Py<Text>)
    ensures r == if PayloadSize(args) < TWO_32 then Returned(Request(args)) else Raised
  {
    CountFits(args);
    var packed := Pack(|args|);
    if packed.Raised? {
      return Raised;
    }
    var payload := packed.value;
    assert args[..0] == [];
    for i := 0 to |args|
      invariant payload == Put32(|args|) + ArgBlocks(args[..i])
      invariant |args| < TWO_32
    {
      packed := Pack(|args[i]|);
      if packed.Raised? {
        return Raised;
      }
      BlocksStep(args, i);
      Regroup(Put32(|args|), ArgBlocks(args[..i]), Block(args[i]));
      payload := payload + (packed.value + args[i]);
    }
    assert args[..|args|] == args;
    packed := Pack(|payload|);
    if packed.Raised? {
      return Raised;
    }
    Regroup(packed.value, Put32(|args|), ArgBlocks(args));
    return Returned(packed.value + payload);
  }

  // ---- parse_resp ----

  datatype Item =
    | NilItem
    | TextItem(bytes: Text)
    | IntItem(n: Int64)
    | DblItem(bits: UInt64)
    | UnknownItem(tag: Byte)

  /** An array element together with the offset at which it was read. */
  datatype Mark = Mark(at: nat, item: Item)

  datatype Reply =
    | One(item: Item)
    | ErrorText(message: Text)
    | Many(marks: seq<Mark>)

  /** `data[i:j]`: Python slices never fail, they shrink. */
  function Slice(data: Text, i: nat, j: nat): Text
    requires i <= j
  {
    var lo, hi := if i < |data| then i else |data|, if j < |data| then j else |data|;
    data[lo..hi]
  }

  /** `struct.unpack('<I', data[i:i+4])[0]`, which does fail on a short slice; likewise for 8 bytes. */
  function Unpack32(data: Text, i: nat): Py<UInt32> {
    var s := Slice(data, i, i + 4);
    if |s| == 4 then Returned(Load32(s)) else Raised
  }

  function Unpack64(data: Text, i: nat): Py<UInt64> {
    var s := Slice(data, i, i + 8);
    if |s| == 8 then Returned(Load64(s)) else Raised
  }

  /** `data[9:9+ml].decode()`: the one strict decoding in the script; all others replace what they cannot decode. */
  function DecodeError(message: Text): Py<Reply> {
    if Utf8.Valid(message) then Returned(ErrorText(message)) else Raised
  }

  /** One element of an array: what is appended, and the next offset. */
  function Element(data: Text, pos: nat): Py<(Item, nat)> {
    if pos >= |data| then Raised
    else
      var tag := data[pos];
      if tag == WireFormat.NIL then Returned((NilItem, pos + 1))
      else if tag == WireFormat.STR then
        match Unpack32(data, pos + 1)
        case Raised => Raised
        case Returned(len) => Returned((TextItem(Slice(data, pos + 5, pos + 5 + len)), pos + 5 + len))
      else if tag == WireFormat.INT then
        match Unpack64(data, pos + 1)
        case Raised => Raised
        case Returned(n) => Returned((IntItem(AsInt64(n)), pos + 9))
      else if tag == WireFormat.DBL then
        match Unpack64(data, pos + 1)
        case Raised => Raised
        case Returned(bits) => Returned((DblItem(bits), pos + 9))
      else Returned((UnknownItem(tag), pos + 1))
  }

  function Elements(data: Text, pos: nat, count: nat): (r: Py<seq<Mark>>)
    ensures r.Returned? ==> |r.value| == count
    decreases count
  {
    if count == 0 then Returned([])
    else
      match Element(data, pos)
      case Raised => Raised
      case Returned((item, next)) =>
        match Elements(data, next, count - 1)
        case Raised => Raised
        case Returned(rest) => Returned([Mark(pos, item)] + rest)
  }

  /** What `parse_resp` computes. */
  function PyParse(data: Text): Py<Reply> {
    if data == [] then Returned(One(NilItem))
    else
      var tag := data[0];
      if tag == WireFormat.ERROR then
        match Unpack32(data, 5)
        case Raised => Raised
        case Returned(len) => DecodeError(Slice(data, 9, 9 + len))
      else if tag == WireFormat.ARR then
        match Unpack32(data, 1)
        case Raised => Raised
        case Returned(count) =>
          match Elements(data, 5, count)
          case Raised => Raised
          case Returned(marks) => Returned(Many(marks))
      else
        match Element(data, 0)
        case Raised => Raised
        case Returned((item, _)) => Returned(One(item))
  }

  method ParseResp(data: Text) returns (r: Py<Reply>)
    ensures r == PyParse(data)
  {
    if data == [] {
      return Returned(One(NilItem));
    }
    var tag := data[0];
    if tag == WireFormat.ERROR {
      var len := Unpack32(data, 5);
      if len.Raised? {
        return Raised;
      }
      var n: int := len.value;
      return DecodeError(Slice(data, 9, 9 + n));
    }
    if tag != WireFormat.ARR {
      var e := Element(data, 0);
      return if e.Raised? then Raised else Returned(One(e.value.0));
    }
    var count := Unpack32(data, 1);
    if count.Raised? {
      return Raised;
    }
    var pos, items: seq<Mark> := 5, [];
    ghost var all := Elements(data, 5, count.value);
    assert all.Returned? ==> [] + all.value == all.value;
    for i := 0 to count.value
      invariant Elements(data, 5, count.value) ==
                match Elements(data, pos, count.value - i)
                case Raised => Raised
                case Returned(rest) => Returned(items + rest)
    {
      var e := Element(data, pos);
      if e.Raised? {
        return Raised;
      }
      ghost var rest := Elements(data, e.value.1, count.value - i - 1);
      if rest.Returned? {
        assert items + ([Mark(pos, e.value.0)] + rest.value) == items + [Mark(pos, e.value.0)] + rest.value;
      }
      items := items + [Mark(pos, e.value.0)];
      pos := e.value.1;
    }
    assert items + [] == items;
    return Returned(Many(items));
  }

  // ---- the two codecs ----

  /** What the script can say inside an array. */
  predicate FlatElement(v: Response) {
    v.Nil? || v.Str? || v.Int? || v.Dbl?
  }

  predicate Flat(v: Response) {
    v.Arr? ==> forall i | 0 <= i < |v.elems| :: FlatElement(v.elems[i])
  }

  /** A reply the script can show: nothing nested, and an error message it can decode. */
  predicate Readable(v: Response) {
    Flat(v) && (v.Error? ==> Utf8.Valid(v.message))
  }

  /** How the script shows one element; it has no form for errors and arrays. */
  function ItemOf(v: Response): Item {
    match v
    case Nil => NilItem
    case Str(text) => TextItem(text)
    case Int(n) => IntItem(n)
    case Dbl(bits) => DblItem(bits)
    case Error(_, _) => UnknownItem(WireFormat.ERROR)
    case Arr(_) => UnknownItem(WireFormat.ARR)
  }

  /** Where the C++ decoder starts reading each of `count` elements, and what it reads there. */
  function DecoderMarks(data: Text, pos: nat, count: nat): (marks: seq<Mark>)
    requires pos <= |data| && ParseElems(data, pos, count).result.Ok?
    ensures |marks| == count
    decreases count
  {
    if count == 0 then []
    else
      var head := Parse(data, pos);
      [Mark(pos, ItemOf(head.result.value))] + DecoderMarks(data, head.pos, count - 1)
  }

  /** A decoded reply as the script would show it. */
  function Shown(data: Text): Reply
    requires Parse(data, 0).result.Ok?
  {
    match Parse(data, 0).result.value
    case Error(_, message) => ErrorText(message)
    case Arr(elems) => Many(DecoderMarks(data, 5, |elems|))
    case v => One(ItemOf(v))
  }

  /** Where the C++ decoder reads a flat value, the script reads the same value and moves on equally far. */
  lemma {:induction false} ElementAgrees(data: Text, pos: nat)
    requires Parse(data, pos).result.Ok? && FlatElement(Parse(data, pos).result.value)
    ensures Element(data, pos) == Returned((ItemOf(Parse(data, pos).result.value), Parse(data, pos).pos))
  {
    if data[pos] == WireFormat.STR {
      UnpackInside(data, pos + 1);
    } else if data[pos] == WireFormat.INT || data[pos] == WireFormat.DBL {
      UnpackInside64(data, pos + 1);
    }
  }

  lemma {:induction false} UnpackInside(data: Text, i: nat)
    requires i + 4 <= |data|
    ensures Unpack32(data, i) == Returned(Load32(data[i..i + 4]))
  {
  }

  lemma {:induction false} UnpackInside64(data: Text, i: nat)
    requires i + 8 <= |data|
    ensures Unpack64(data, i) == Returned(Load64(data[i..i + 8]))
  {
  }

  lemma {:induction false} ElementsAgree(data: Text, pos: nat, count: nat)
    requires pos <= |data| && ParseElems(data, pos, count).result.Ok?
    requires forall i | 0 <= i < count :: FlatElement(ParseElems(data, pos, count).result.value[i])
    ensures Elements(data, pos, count) == Returned(DecoderMarks(data, pos, count))
    decreases count
  {
    if count > 0 {
      var head := Parse(data, pos);
      ElemsTail(data, pos, count);
      ElementAgrees(data, pos);
      ElementsAgree(data, head.pos, count - 1);
      MarksTail(data, pos, count);
      var marks := DecoderMarks(data, pos, count);
      assert marks == [marks[0]] + marks[1..];
    }
  }

  /** The values of an element loop are its first value and those of the rest of the loop. */
  lemma {:induction false} ElemsTail(data: Text, pos: nat, count: nat)
    requires pos <= |data| && count > 0 && ParseElems(data, pos, count).result.Ok?
    ensures var all, head := ParseElems(data, pos, count).result.value, Parse(data, pos);
            && head.result == Results.Ok(all[0])
            && ParseElems(data, head.pos, count - 1).result == Results.Ok(all[1..])
            && ParseElems(data, head.pos, count - 1).pos == ParseElems(data, pos, count).pos
  {
  }

  lemma {:induction false} MarksTail(data: Text, pos: nat, count: nat)
    requires pos <= |data| && count > 0 && ParseElems(data, pos, count).result.Ok?
    ensures var marks, head := DecoderMarks(data, pos, count), Parse(data, pos);
            && marks[0] == Mark(pos, ItemOf(head.result.value))
            && marks[1..] == DecoderMarks(data, head.pos, count - 1)
  {
  }

  /**
   On all bytes that the C++ decoder reads as a flat reply (with a message in UTF-8, if it is an
   error), whatever follows it, the script reads the same values at the same offsets.
   */
  lemma {:induction false} FlatReplyAgrees(data: Text)
    requires Parse(data, 0).result.Ok? && Readable(Parse(data, 0).result.value)
    ensures PyParse(data) == Returned(Shown(data))
  {
    var v := Parse(data, 0).result.value;
    match v
    case Error(_, _) => UnpackInside(data, 5);
    case Arr(elems) =>
      UnpackInside(data, 1);
      ElementsAgree(data, 5, |elems|);
    case _ => ElementAgrees(data, 0);
  }

  /** The script's output shows that it met something it cannot read: it raised, or it printed an `unknown(...)`. */
  predicate Flagged(r: Py<Reply>) {
    match r
    case Raised => true
    case Returned(One(item)) => item.UnknownItem?
    case Returned(ErrorText(_)) => false
    case Returned(Many(marks)) => exists i :: 0 <= i < |marks| && marks[i].item.UnknownItem?
  }

  /** `k` is the first element that is not flat: the script shows it as unknown, if it gets to the end at all. */
  lemma {:induction false} NestedElementFlagged(data: Text, pos: nat, count: nat, k: nat)
    requires pos <= |data| && k < count && ParseElems(data, pos, count).result.Ok?
    requires !FlatElement(ParseElems(data, pos, count).result.value[k])
    requires forall i | 0 <= i < k :: FlatElement(ParseElems(data, pos, count).result.value[i])
    ensures var r := Elements(data, pos, count);
            r.Returned? ==> r.value[k].item.UnknownItem?
    decreases count
  {
    ElemsTail(data, pos, count);
    if k == 0 {
      NestedElement(data, pos);
    } else {
      ElementAgrees(data, pos);
      NestedElementFlagged(data, Parse(data, pos).pos, count - 1, k - 1);
    }
  }

  lemma {:induction false} NestedElement(data: Text, pos: nat)
    requires Parse(data, pos).result.Ok? && !FlatElement(Parse(data, pos).result.value)
    ensures Element(data, pos).Returned? && Element(data, pos).value.0.UnknownItem?
  {
  }

  ghost function FirstNested(vs: seq<Response>): (k: nat)
    requires exists i :: 0 <= i < |vs| && !FlatElement(vs[i])
    ensures k < |vs| && !FlatElement(vs[k]) && forall i | 0 <= i < k :: FlatElement(vs[i])
  {
    if !FlatElement(vs[0]) then 0
    else
      var i :| 0 <= i < |vs| && !FlatElement(vs[i]);
      assert vs[1..][i - 1] == vs[i];
      1 + FirstNested(vs[1..])
  }

  /**
   The script raises or shows an unknown exactly when an array holds an error or an array, or a
   top-level error message is not UTF-8.
   */
  lemma {:induction false} FlaggedIffUnreadable(data: Text)
    requires Parse(data, 0).result.Ok?
    ensures Flagged(PyParse(data)) <==> !Readable(Parse(data, 0).result.value)
  {
    var v := Parse(data, 0).result.value;
    if Readable(v) {
      ReadableUnflagged(data);
    } else if v.Error? {
      UnpackInside(data, 5);
    } else {
      UnpackInside(data, 1);
      NestedElementFlagged(data, 5, |v.elems|, FirstNested(v.elems));
    }
  }

  lemma {:induction false} ReadableUnflagged(data: Text)
    requires Parse(data, 0).result.Ok? && Readable(Parse(data, 0).result.value)
    ensures !Flagged(PyParse(data))
  {
    var v := Parse(data, 0).result.value;
    FlatReplyAgrees(data);
    if v.Arr? {
      forall i | 0 <= i < |v.elems|
        ensures !DecoderMarks(data, 5, |v.elems|)[i].item.UnknownItem?
      {
        MarksAreItems(data, 5, |v.elems|, i);
      }
    }
  }

  /** An error reply the C++ client reads and the script raises on: code 0 and the one-byte message FF. */
  lemma {:induction false} UndecodableErrorRaises()
    ensures var data: Text := WireFormat.Enc(WireFormat.Error(0, [0xFF]));
            && Parse(data, 0).result == Results.Ok(WireFormat.Error(0, [0xFF]))
            && PyParse(data) == Raised
  {
    var v := WireFormat.Error(0, [0xFF]);
    var data := WireFormat.Enc(v);
    DecodesExactly(data, 0, v, |data|);
    FlaggedIffUnreadable(data);
    ErrorDecodedStrictly(data, v);
  }

  /**
   And an array inside an array, as the script shows it: the inner tag is one unknown, and the
   inner count is then read as elements of the outer array.
   */
  lemma {:induction false} NestedArrayMisread()
    ensures var v := WireFormat.Arr([WireFormat.Arr([WireFormat.Nil]), WireFormat.Nil]);
            var data: Text := [5, 2, 0, 0, 0, 5, 1, 0, 0, 0, 0, 0];
            && WireFormat.Enc(v) == data
            && PyParse(data) == Returned(Many([Mark(5, UnknownItem(5)), Mark(6, UnknownItem(1))]))
  {
    NestedBytes();
    NestedShown([5, 2, 0, 0, 0, 5, 1, 0, 0, 0, 0, 0]);
  }

  lemma {:induction false} NestedBytes()
    ensures WireFormat.Enc(WireFormat.Arr([WireFormat.Arr([WireFormat.Nil]), WireFormat.Nil]))
            == [5, 2, 0, 0, 0, 5, 1, 0, 0, 0, 0, 0]
  {
    var inner := WireFormat.Arr([WireFormat.Nil]);
    InnerBytes();
    SmallCount(2);
    var elems := [inner, WireFormat.Nil];
    assert elems[1..] == [WireFormat.Nil];
    assert WireFormat.EncAll(elems) == [5, 1, 0, 0, 0, 0] + [0];
    assert [5] + [2, 0, 0, 0] + ([5, 1, 0, 0, 0, 0] + [0]) == [5, 2, 0, 0, 0, 5, 1, 0, 0, 0, 0, 0];
  }

  lemma {:induction false} InnerBytes()
    ensures WireFormat.EncAll([WireFormat.Nil]) == [0]
    ensures WireFormat.Enc(WireFormat.Arr([WireFormat.Nil])) == [5, 1, 0, 0, 0, 0]
  {
    SmallCount(1);
    assert [WireFormat.Nil][1..] == [];
    assert WireFormat.EncAll([WireFormat.Nil]) == [0] + WireFormat.EncAll([]);
    assert [5] + [1, 0, 0, 0] + [0] == [5, 1, 0, 0, 0, 0];
  }

  lemma {:induction false} NestedShown(data: Text)
    requires data == [5, 2, 0, 0, 0, 5, 1, 0, 0, 0, 0, 0]
    ensures PyParse(data) == Returned(Many([Mark(5, UnknownItem(5)), Mark(6, UnknownItem(1))]))
  {
    assert data[0] == 5 && data[5] == 5 && data[6] == 1;
    CountOfTwo(data);
    assert Elements(data, 7, 0) == Returned([]);
    UnknownFirst(data, 6, 0, []);
    var second := [Mark(6, UnknownItem(1))];
    assert second + [] == second;
    UnknownFirst(data, 5, 1, second);
    var both := [Mark(5, UnknownItem(5))] + second;
    ArrayShown(data, 2, both);
    assert both == [Mark(5, UnknownItem(5)), Mark(6, UnknownItem(1))];
  }

  lemma {:induction false} CountOfTwo(data: Text)
    requires |data| > 5 && data[1] == 2 && data[2] == 0 && data[3] == 0 && data[4] == 0
    ensures Unpack32(data, 1) == Returned(2)
  {
    assert data[1..5] == [data[1], data[2], data[3], data[4]];
    SmallCount(2);
    Inverse32(2, Put32(2));
    UnpackInside(data, 1);
  }

  lemma {:induction false} ArrayShown(data: Text, count: UInt32, marks: seq<Mark>)
    requires data != [] && data[0] == 5 && Unpack32(data, 1) == Returned(count)
    requires Elements(data, 5, count) == Returned(marks)
    ensures PyParse(data) == Returned(Many(marks))
  {
  }

  /** An error or an array among the elements is one unknown and one byte. */
  lemma {:induction false} UnknownFirst(data: Text, pos: nat, count: nat, rest: seq<Mark>)
    requires pos < |data| && (data[pos] == 1 || data[pos] == 5) && Elements(data, pos + 1, count) == Returned(rest)
    ensures Elements(data, pos, count + 1) == Returned([Mark(pos, UnknownItem(data[pos]))] + rest)
  {
    assert Element(data, pos) == Returned((UnknownItem(data[pos]), pos + 1));
  }

  lemma {:induction false} SmallCount(n: nat)
    requires n < 256
    ensures Put32(n) == [n, 0, 0, 0]
  {
    assert PutLe(0, 1) == [0] && PutLe(0, 2) == [0, 0] && PutLe(0, 3) == [0, 0, 0];
  }

  /** An error reply is its message decoded strictly. */
  lemma {:induction false} ErrorDecodedStrictly(data: Text, v: Response)
    requires Parse(data, 0).result == Results.Ok(v) && v.Error?
    ensures PyParse(data) == DecodeError(v.message)
  {
    UnpackInside(data, 5);
  }

  /** Each mark is the decoder's own: decoding at its offset gives the element, and ends at the next mark. */
  lemma {:induction false} MarksAreItems(data: Text, pos: nat, count: nat, i: nat)
    requires pos <= |data| && i < count && ParseElems(data, pos, count).result.Ok?
    ensures var mark, value := DecoderMarks(data, pos, count)[i], ParseElems(data, pos, count).result.value[i];
            && mark.item == ItemOf(value)
            && Parse(data, mark.at).result == Results.Ok(value)
            && Parse(data, mark.at).pos == EndOf(data, pos, count, i)
    decreases count
  {
    ElemsTail(data, pos, count);
    MarksTail(data, pos, count);
    if i > 0 {
      MarksAreItems(data, Parse(data, pos).pos, count - 1, i - 1);
    } else if count > 1 {
      MarksTail(data, Parse(data, pos).pos, count - 1);
    }
  }

  /** Where element `i` ends: at the next mark, or where the array does. */
  function EndOf(data: Text, pos: nat, count: nat, i: nat): nat
    requires pos <= |data| && i < count && ParseElems(data, pos, count).result.Ok?
  {
    if i + 1 < count then DecoderMarks(data, pos, count)[i + 1].at else ParseElems(data, pos, count).pos
  }

  // ---- replies cut short ----

  function TextSize(v: Response): nat {
    if v.Str? then |v.text| else 0
  }

  function LastTextSize(vs: seq<Response>): nat {
    if vs == [] then 0 else TextSize(vs[|vs| - 1])
  }

  /** Bytes at the very end of a reply's encoding that are text: losing only these goes unnoticed. */
  function TailText(v: Response): nat {
    match v
    case Str(text) => |text|
    case Error(_, message) => |message|
    case Arr(elems) => LastTextSize(elems)
    case _ => 0
  }

  /** An element that survives the cut is read as before... */
  lemma {:induction false} KeptElement(full: Text, pos: nat, k: nat)
    requires Parse(full, pos).result.Ok? && FlatElement(Parse(full, pos).result.value)
    requires Parse(full, pos).pos <= k <= |full|
    ensures Element(full[..k], pos) == Returned((ItemOf(Parse(full, pos).result.value), Parse(full, pos).pos))
  {
    var data := full[..k];
    ElementAgrees(full, pos);
    if full[pos] == WireFormat.STR {
      SliceKept(full, k, pos + 1, pos + 5);
      var len := Unpack32(full, pos + 1).value;
      SliceKept(full, k, pos + 5, pos + 5 + len);
    } else if full[pos] == WireFormat.INT || full[pos] == WireFormat.DBL {
      SliceKept(full, k, pos + 1, pos + 9);
    }
  }

  lemma {:induction false} SliceKept(full: Text, k: nat, i: nat, j: nat)
    requires i <= j <= k <= |full|
    ensures Slice(full[..k], i, j) == Slice(full, i, j)
  {
  }

  /**
   ...and one the cut falls into raises, unless only the end of a text is gone; the offset moves on
   as if nothing were missing.
   */
  lemma {:induction false} CutElement(full: Text, pos: nat, k: nat)
    requires Parse(full, pos).result.Ok? && FlatElement(Parse(full, pos).result.value)
    requires pos <= k < Parse(full, pos).pos
    ensures var r, whole := Element(full[..k], pos), Parse(full, pos);
            && (r.Raised? <==> whole.pos - k > TextSize(whole.result.value))
            && (r.Returned? ==> r.value.1 == whole.pos)
  {
    if full[pos] == WireFormat.STR && k >= pos + 5 {
      CutText(full, pos, k);
    }
  }

  lemma {:induction false} CutText(full: Text, pos: nat, k: nat)
    requires Parse(full, pos).result.Ok? && full[pos] == WireFormat.STR && pos + 5 <= k < Parse(full, pos).pos
    ensures Parse(full, pos).result.value.Str? && Parse(full, pos).pos - k <= |Parse(full, pos).result.value.text|
    ensures Element(full[..k], pos).Returned? && Element(full[..k], pos).value.1 == Parse(full, pos).pos
  {
    SliceKept(full, k, pos + 1, pos + 5);
    UnpackInside(full, pos + 1);
  }

  /** A text at the end of an element loop lies inside the bytes the loop consumed. */
  lemma {:induction false} LastTextInside(full: Text, pos: nat, count: nat)
    requires pos <= |full| && ParseElems(full, pos, count).result.Ok?
    ensures LastTextSize(ParseElems(full, pos, count).result.value) <= ParseElems(full, pos, count).pos - pos
    decreases count
  {
    if count > 0 {
      ElemsTail(full, pos, count);
      LastTextInside(full, Parse(full, pos).pos, count - 1);
      LastOf(ParseElems(full, pos, count).result.value);
    }
  }

  lemma {:induction false} LastOf(vs: seq<Response>)
    requires vs != []
    ensures LastTextSize(vs) == if |vs| == 1 then TextSize(vs[0]) else LastTextSize(vs[1..])
  {
  }

  lemma {:induction false} CutElements(full: Text, pos: nat, count: nat, k: nat)
    requires pos <= k < |full| && ParseElems(full, pos, count).result.Ok? && ParseElems(full, pos, count).pos == |full|
    requires forall i | 0 <= i < count :: FlatElement(ParseElems(full, pos, count).result.value[i])
    ensures Elements(full[..k], pos, count).Raised?
       <==> |full| - k > LastTextSize(ParseElems(full, pos, count).result.value)
    decreases count
  {
    var vs := ParseElems(full, pos, count).result.value;
    var next, data := Parse(full, pos).pos, full[..k];
    ElemsTail(full, pos, count);
    LastOf(vs);
    if next <= k {
      KeptElement(full, pos, k);
      CutElements(full, next, count - 1, k);
    } else {
      CutElement(full, pos, k);
      if count > 1 {
        LastTextInside(full, next, count - 1);
        assert Elements(data, next, count - 1).Raised?;
      }
    }
  }

  /**
   Replies cut short, all of them. The script raises exactly when more than trailing text is
   missing, or what is left of an error message is not UTF-8. In every other case it shows the
   shortened reply as if it were whole, which the C++ decoder never does.
   */
  lemma {:induction false} CutReplyRaises(v: Response, k: nat)
    requires WireFormat.Encodable(v) && Flat(v) && k < |WireFormat.Enc(v)|
    ensures var data, missing := WireFormat.Enc(v)[..k], |WireFormat.Enc(v)| - k;
            && (PyParse(data).Raised? <==>
                  0 < k && (missing > TailText(v) || (v.Error? && !Utf8.Valid(v.message[..|v.message| - missing]))))
            && Parse(data, 0).result.Err?
  {
    var full := WireFormat.Enc(v);
    var data := full[..k];
    StrictPrefixRejected(v, k);
    DecodesExactly(full, 0, v, |full|);
    if k > 0 {
      match v
      case Error(_, message) => CutError(full, v, k);
      case Arr(elems) =>
        if k >= 5 {
          SliceKept(full, k, 1, 5);
          UnpackInside(full, 1);
          CutElements(full, 5, |elems|, k);
        } else {
          LastTextInside(full, 5, |elems|);
        }
      case Nil =>
      case _ => CutElement(full, 0, k);
    }
  }

  lemma {:induction false} CutError(full: Text, v: Response, k: nat)
    requires Parse(full, 0).result == Results.Ok(v) && v.Error? && Parse(full, 0).pos == |full| && 0 < k < |full|
    ensures PyParse(full[..k]).Raised? <==>
            |full| - k > |v.message| || !Utf8.Valid(v.message[..|v.message| - (|full| - k)])
  {
    var data := full[..k];
    if k >= 9 {
      ErrorMessageAt(full, v);
      SliceKept(full, k, 5, 9);
      SliceCut(full, k, 9, |full|);
      SliceOfSlice(full, 9, k);
      assert PyParse(data) == DecodeError(v.message[..k - 9]);
    }
  }

  lemma {:induction false} ErrorMessageAt(full: Text, v: Response)
    requires Parse(full, 0).result == Results.Ok(v) && v.Error? && Parse(full, 0).pos == |full|
    ensures |full| == 9 + |v.message| && full[9..] == v.message
    ensures Unpack32(full, 5).Returned? && Unpack32(full, 5).value == |v.message|
  {
    UnpackInside(full, 5);
    var len: int := Load32(full[5..9]);
    assert v.message == full[9..9 + len];
    assert |full| == 9 + len;
  }

  lemma {:induction false} SliceOfSlice(full: Text, i: nat, k: nat)
    requires i <= k <= |full|
    ensures full[i..k] == full[i..][..k - i]
  {
  }

  lemma {:induction false} SliceCut(full: Text, k: nat, i: nat, j: nat)
    requires i <= k <= j <= |full|
    ensures Slice(full[..k], i, j) == full[i..k]
  {
  }

  /**
   What it shows then, for a text: the script, which reads its reply with a single `recv`, shows
   the shortened text as if it were the reply.
   */
  lemma {:induction false} TruncatedTextAccepted(text: Text, k: nat)
    requires |text| < TWO_32 && 5 <= k < 5 + |text|
    ensures var data := WireFormat.Enc(WireFormat.Str(text))[..k];
            && PyParse(data) == Returned(One(TextItem(text[..k - 5])))
            && Parse(data, 0).result.Err?
  {
    var v := WireFormat.Str(text);
    var data := WireFormat.Enc(v)[..k];
    StrictPrefixRejected(v, k);
    var full, len := WireFormat.Enc(v), Put32(|text|);
    Inverse32(|text|, len);
    AtSplit3(full, 0, [WireFormat.STR], len, text);
    assert full[..1] == [WireFormat.STR] && data[0] == full[..1][0];
    assert Slice(data, 1, 5) == full[1..5] == len;
    assert Slice(data, 5, 5 + |text|) == full[5..5 + |text|][..k - 5];
  }
}
