/**
 The label syntax of the text format: reading rendered label sets back. Strings are byte strings,
 as in C++: a character stands for the byte of its code, and the format wants values in UTF-8.
 */
module MetricsLabels {
  import opened Results
  import opened Metrics
  import opened Sequences
  import Utf8

  // ---- names ----

  predicate NameChar(c: char, colons: bool) {
    'a' <= c <= 'z' || 'A' <= c <= 'Z' || c == '_' || '0' <= c <= '9' || (colons && c == ':')
  }

  /** Label names are identifiers; metric names may also hold colons. */
  predicate IsName(name: string, colons: bool) {
    && name != "" && !('0' <= name[0] <= '9')
    && forall i | 0 <= i < |name| :: NameChar(name[i], colons)
  }

  function NameRun(s: string, colons: bool): (name: string)
    ensures name <= s
    ensures forall i | 0 <= i < |name| :: NameChar(name[i], colons)
  {
    if s == "" || !NameChar(s[0], colons) then "" else [s[0]] + NameRun(s[1..], colons)
  }

  function ReadName(s: string, colons: bool): (r: Option<Read<string>>)
    ensures r.Some? ==> IsName(r.value.value, colons) && s == r.value.value + r.value.rest
  {
    var name := NameRun(s, colons);
    if IsName(name, colons) then Some(Read(name, s[|name|..])) else None
  }

  lemma {:induction false} NameRunStops(name: string, colons: bool, rest: string)
    requires forall i | 0 <= i < |name| :: NameChar(name[i], colons)
    requires rest != "" && !NameChar(rest[0], colons)
    ensures NameRun(name + rest, colons) == name
  {
    if name == "" {
      assert name + rest == rest;
    } else {
      NameRunStops(name[1..], colons, rest);
      assert (name + rest)[0] == name[0] && (name + rest)[1..] == name[1..] + rest;
    }
  }

  lemma {:induction false} NameExactly(name: string, colons: bool, rest: string)
    requires rest != "" && !NameChar(rest[0], colons)
    ensures ReadName(name + rest, colons) == Some(Read(name, rest)) <==> IsName(name, colons)
  {
    if IsName(name, colons) {
      NameRunStops(name, colons, rest);
      assert (name + rest)[|name|..] == rest;
    }
  }

  // ---- quoted values ----

  /** The rest of a label value after its opening quote: three escapes, no other, and no raw newline. */
  function ReadQuoted(s: string): (r: Option<Read<string>>)
    ensures r.Some? ==> |r.value.rest| < |s|
  {
    if s == "" || s[0] == '\n' then None
    else if s[0] == '"' then Some(Read("", s[1..]))
    else if s[0] == '\\' then
      if |s| == 1 then None
      else if s[1] == '\\' || s[1] == '"' then Prepend(s[1], ReadQuoted(s[2..]))
      else if s[1] == 'n' then Prepend('\n', ReadQuoted(s[2..]))
      else None
    else Prepend(s[0], ReadQuoted(s[1..]))
  }

  function Prepend(c: char, r: Option<Read<string>>): Option<Read<string>> {
    match r
    case None => None
    case Some(read) => Some(Read([c] + read.value, read.rest))
  }

  /** Nothing in the value would need an escape. */
  predicate Clean(value: string) {
    '"' !in value && '\\' !in value && '\n' !in value
  }

  /** Unescaping shortens every run of backslashes, so the value read never catches up with the text. */
  lemma {:induction false} BackslashesShrink(run: string, w: string, rest: string)
    requires run != "" && forall i | 0 <= i < |run| :: run[i] == '\\'
    ensures var r := ReadQuoted(w + "\"" + rest); r.Some? ==> r.value.value != run + w
    decreases |w|
  {
    var s := w + "\"" + rest;
    var r := ReadQuoted(s);
    if r.Some? && r.value.value == run + w {
      assert (run + w)[0] == '\\';
      assert |w| >= 2 && w[0] == '\\' && w[1] == '\\';
      var more := run[1..] + "\\\\";
      assert s[2..] == w[2..] + "\"" + rest;
      assert (run + w)[1..] == more + w[2..];
      assert r.value.value[1..] == ReadQuoted(s[2..]).value.value;
      BackslashesShrink(more, w[2..], rest);
      assert false;
    }
  }

  /** An unescaped value reads as itself exactly when it is clean. */
  lemma {:induction false} QuotedExactly(value: string, rest: string)
    ensures var r := ReadQuoted(value + "\"" + rest);
            && (r == Some(Read(value, rest)) <==> Clean(value))
            && (r.Some? && r.value.value == value ==> Clean(value))
  {
    var s := value + "\"" + rest;
    var r := ReadQuoted(s);
    if value == "" {
      assert s[1..] == rest;
    } else {
      QuotedExactly(value[1..], rest);
      assert s[0] == value[0] && s[1..] == value[1..] + "\"" + rest;
      assert value == [value[0]] + value[1..];
      if value[0] == '\\' && r.Some? && r.value.value == value {
        assert |value| >= 2 && value[1] == '\\';
        assert s[2..] == value[2..] + "\"" + rest;
        assert r.value.value[1..] == ReadQuoted(s[2..]).value.value;
        assert value[1..] == "\\" + value[2..];
        BackslashesShrink("\\", value[2..], rest);
        assert false;
      }
    }
  }

  // ---- label sets ----

  /** A label value, once unescaped, must be UTF-8. */
  predicate IsText(value: string) {
    Utf8.Valid(Utf8.Codes(value))
  }

  /** `name="value"` followed by anything. */
  function ReadPair(s: string): (r: Option<Read<(string, string)>>)
    ensures r.Some? ==> |r.value.rest| < |s|
  {
    match ReadName(s, false)
    case None => None
    case Some(name) =>
      if |name.rest| < 2 || name.rest[0] != '=' || name.rest[1] != '"' then None
      else
        match ReadQuoted(name.rest[2..])
        case None => None
        case Some(value) => if IsText(value.value) then Some(Read((name.value, value.value), value.rest)) else None
  }

  /** Pairs separated by commas, a trailing one allowed, up to the closing brace. */
  function ReadPairs(s: string): (r: Option<Read<Labels>>)
    ensures r.Some? ==> |r.value.rest| < |s|
    decreases |s|
  {
    if s != "" && s[0] == '}' then Some(Read([], s[1..]))
    else
      match ReadPair(s)
      case None => None
      case Some(first) =>
        if first.rest == "" then None
        else if first.rest[0] == '}' then Some(Read([first.value], first.rest[1..]))
        else if first.rest[0] != ',' then None
        else
          match ReadPairs(first.rest[1..])
          case None => None
          case Some(more) => Some(Read([first.value] + more.value, more.rest))
  }

  /**
   The optional label set after a metric name. The exporter prints no blanks inside it, and this
   reader skips none.
   */
  function ReadLabels(s: string): (r: Option<Read<Labels>>)
    ensures r.Some? ==> |r.value.rest| <= |s|
  {
    if s == "" || s[0] != '{' then Some(Read([], s)) else ReadPairs(s[1..])
  }

  predicate LegiblePair(pair: (string, string)) {
    IsName(pair.0, false) && Clean(pair.1) && IsText(pair.1)
  }

  predicate LegibleLabels(labels: Labels) {
    forall i | 0 <= i < |labels| :: LegiblePair(labels[i])
  }

  lemma {:induction false} PairExactly(pair: (string, string), rest: string)
    ensures var r := ReadPair(Pair(pair) + rest);
            && (r == Some(Read(pair, rest)) <==> LegiblePair(pair))
            && (r.Some? && r.value.value == pair ==> LegiblePair(pair))
  {
    var (name, value) := pair;
    var tail := "=\"" + (value + "\"" + rest);
    assert Pair(pair) + rest == name + tail;
    NameExactly(name, false, tail);
    assert tail[2..] == value + "\"" + rest;
    QuotedExactly(value, rest);
    if IsName(name, false) {
      assert ReadName(name + tail, false) == Some(Read(name, tail));
    }
  }

  /** `r` recovers `labels` exactly when they are legible. */
  predicate Recovers(r: Option<Read<Labels>>, labels: Labels, rest: string) {
    && (r == Some(Read(labels, rest)) <==> LegibleLabels(labels))
    && (r.Some? && r.value.value == labels ==> LegibleLabels(labels))
  }

  lemma {:induction false} LastPair(pair: (string, string), rest: string)
    ensures Recovers(ReadPairs(Pair(pair) + ("}" + rest)), [pair], rest)
  {
    assert ("}" + rest)[1..] == rest;
    PairExactly(pair, "}" + rest);
    assert [pair][0] == pair;
  }

  lemma {:induction false} MorePairs(pair: (string, string), others: Labels, tail: string, rest: string)
    requires Recovers(ReadPairs(tail), others, rest)
    ensures Recovers(ReadPairs(Pair(pair) + ("," + tail)), [pair] + others, rest)
  {
    var s, labels := Pair(pair) + ("," + tail), [pair] + others;
    assert ("," + tail)[1..] == tail;
    PairExactly(pair, "," + tail);
    LegibleCons(pair, others);
    var r := ReadPairs(s);
    if r.Some? && r.value.value == labels {
      var first := ReadPair(s).value;
      assert first.value == labels[0] == pair;
      assert r.value.value[1..] == ReadPairs(tail).value.value == others;
    }
  }

  lemma {:induction false} LegibleCons(pair: (string, string), others: Labels)
    ensures LegibleLabels([pair] + others) <==> LegiblePair(pair) && LegibleLabels(others)
  {
    var labels := [pair] + others;
    assert labels[0] == pair && forall i | 0 <= i < |others| :: labels[i + 1] == others[i];
  }

  lemma {:induction false} PairsExactly(labels: Labels, rest: string)
    requires labels != []
    ensures Recovers(ReadPairs(Join(labels) + "}" + rest), labels, rest)
    decreases |labels|
  {
    if |labels| == 1 {
      Regroup(Pair(labels[0]), "}", rest);
      LastPair(labels[0], rest);
      assert labels == [labels[0]];
    } else {
      JoinSplit(labels, rest);
      PairsExactly(labels[1..], rest);
      MorePairs(labels[0], labels[1..], Join(labels[1..]) + "}" + rest, rest);
      assert labels == [labels[0]] + labels[1..];
    }
  }

  lemma {:induction false} JoinSplit(labels: Labels, rest: string)
    requires |labels| > 1
    ensures Join(labels) + "}" + rest == Pair(labels[0]) + ("," + (Join(labels[1..]) + "}" + rest))
  {
    var tail := Join(labels[1..]) + "}" + rest;
    Regroup(Pair(labels[0]) + ",", Join(labels[1..]), "}" + rest);
    Regroup(Join(labels[1..]), "}", rest);
    Regroup(Pair(labels[0]) + "," + Join(labels[1..]), "}", rest);
    Regroup(Pair(labels[0]), ",", tail);
  }

  /**
   A reader of the text format recovers the labels from `render_labels` exactly when every name
   is an identifier and every value is UTF-8 without quote, backslash and newline: the exporter
   neither escapes nor checks anything.
   */
  lemma {:induction false} LabelsReadBack(labels: Labels, rest: string)
    requires labels == [] ==> rest == "" || rest[0] != '{'
    ensures Recovers(ReadLabels(LabelText(labels) + rest), labels, rest)
  {
    if labels == [] {
      assert LabelText(labels) + rest == rest;
    } else {
      PairsExactly(labels, rest);
      Regroup("{" + Join(labels), "}", rest);
      Regroup("{", Join(labels), "}" + rest);
      Regroup(Join(labels), "}", rest);
      assert LabelText(labels) + rest == "{" + (Join(labels) + "}" + rest);
    }
  }

  /**
   Values a reader chokes on: a final backslash hides the closing quote, a newline ends the line,
   and a byte that is not UTF-8 is refused although it would need no escape.
   */
  lemma {:induction false} UnescapedValuesUnreadable()
    ensures ReadLabels(LabelText([("a", "\\")])) == None
    ensures ReadLabels(LabelText([("a", "\n")])) == None
    ensures Clean("\U{FF}") && ReadLabels(LabelText([("a", "\U{FF}")])) == None
  {
    HiddenQuote();
    Unreadable("\\");
    Unreadable("\n");
    assert Utf8.Codes("\U{FF}") == [0xFF];
    QuotedExactly("\U{FF}", "}");
    assert "\U{FF}" + "\"" + "}" == "\U{FF}" + "\"}";
    Unreadable("\U{FF}");
  }

  lemma {:induction false} HiddenQuote()
    ensures ReadQuoted("\\" + "\"}") == None
  {
    var s := "\\" + "\"}";
    assert s[0] == '\\' && s[1] == '"' && s[2..] == "}";
    assert "}"[1..] == "";
    assert ReadQuoted("}") == Prepend('}', ReadQuoted(""));
  }

  lemma {:induction false} Unreadable(value: string)
    requires var r := ReadQuoted(value + "\"}"); r.Some? ==> !IsText(r.value.value)
    ensures ReadLabels(LabelText([("a", value)])) == None
  {
    var labels, tail := [("a", value)], "=\"" + (value + "\"}");
    assert LabelText(labels)[1..] == "a" + tail;
    NameExactly("a", false, tail);
    assert tail[2..] == value + "\"}";
    assert ReadPair("a" + tail) == None;
  }

  // ---- different labels, different text ----

  /** Everything before the first `c`, and what follows it. */
  function Until(s: string, c: char): (r: Option<Read<string>>)
    ensures r.Some? ==> |r.value.rest| < |s| && c !in r.value.value
  {
    if s == "" then None
    else if s[0] == c then Some(Read("", s[1..]))
    else Prepend(s[0], Until(s[1..], c))
  }

  lemma {:induction false} UntilFinds(a: string, c: char, rest: string)
    requires c !in a
    ensures Until(a + [c] + rest, c) == Some(Read(a, rest))
  {
    var s := a + [c] + rest;
    if a == "" {
      assert s[1..] == rest;
    } else {
      UntilFinds(a[1..], c, rest);
      assert s[0] == a[0] && s[1..] == a[1..] + [c] + rest;
      assert a == [a[0]] + a[1..];
    }
  }

  /** No name holds an equals sign and no value a quote. */
  predicate AllPlain(labels: Labels) {
    forall i | 0 <= i < |labels| :: '=' !in labels[i].0 && '"' !in labels[i].1
  }

  lemma {:induction false} PairInjective(p: (string, string), x: string, q: (string, string), y: string)
    requires AllPlain([p]) && AllPlain([q]) && Pair(p) + x == Pair(q) + y
    ensures p == q && x == y
  {
    assert '=' !in [p][0].0 && '=' !in [q][0].0 && '"' !in [p][0].1 && '"' !in [q][0].1;
    var px, qy := "\"" + (p.1 + "\"" + x), "\"" + (q.1 + "\"" + y);
    assert Pair(p) + x == p.0 + ['='] + px && Pair(q) + y == q.0 + ['='] + qy;
    UntilFinds(p.0, '=', px);
    UntilFinds(q.0, '=', qy);
    assert px == qy && px[1..] == p.1 + ['"'] + x && qy[1..] == q.1 + ['"'] + y;
    UntilFinds(p.1, '"', x);
    UntilFinds(q.1, '"', y);
  }

  lemma {:induction false} JoinInjective(a: Labels, b: Labels)
    requires a != [] && b != [] && AllPlain(a) && AllPlain(b) && Join(a) + "}" == Join(b) + "}"
    ensures a == b
    decreases |a|
  {
    var x := if |a| == 1 then "}" else "," + (Join(a[1..]) + "}");
    var y := if |b| == 1 then "}" else "," + (Join(b[1..]) + "}");
    JoinHead(a, x);
    JoinHead(b, y);
    PairInjective(a[0], x, b[0], y);
    assert a == [a[0]] + a[1..] && b == [b[0]] + b[1..];
    assert x[0] == y[0];
    if |a| > 1 {
      assert x[1..] == Join(a[1..]) + "}" && y[1..] == Join(b[1..]) + "}";
      JoinInjective(a[1..], b[1..]);
    }
  }

  lemma {:induction false} JoinHead(a: Labels, x: string)
    requires a != [] && x == if |a| == 1 then "}" else "," + (Join(a[1..]) + "}")
    ensures Join(a) + "}" == Pair(a[0]) + x
  {
    if |a| > 1 {
      Regroup(Pair(a[0]) + ",", Join(a[1..]), "}");
      Regroup(Pair(a[0]), ",", Join(a[1..]) + "}");
    }
  }

  /** Different plain label sets render differently, legible or not. */
  lemma {:induction false} LabelTextInjective(a: Labels, b: Labels)
    requires AllPlain(a) && AllPlain(b) && LabelText(a) == LabelText(b)
    ensures a == b
  {
    if a != [] && b != [] {
      assert LabelText(a)[1..] == Join(a) + "}" && LabelText(b)[1..] == Join(b) + "}";
      JoinInjective(a, b);
    }
  }

  /** With a quote in a value they may not: one label that reads as two. */
  lemma {:induction false} QuoteMakesLabelsCollide()
    ensures var a, b := [("a", "1\",b=\"2")], [("a", "1"), ("b", "2")];
            a != b && LabelText(a) == LabelText(b)
  {
    var b := [("a", "1"), ("b", "2")];
    assert b[1..] == [("b", "2")];
    assert Pair(b[0]) == "a=\"1\"" && Pair(b[1]) == "b=\"2\"";
    assert Join(b) == Pair(b[0]) + "," + Pair(b[1]) == "a=\"1\",b=\"2\"";
  }
}
