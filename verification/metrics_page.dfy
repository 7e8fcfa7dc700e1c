/** Reading a whole exposition page back, line by line. */
module MetricsPage {
  import opened Results
  import opened Sequences
  import opened Metrics
  import opened MetricsLabels

  /** What a reader of the text format gets from one line. */
  datatype Item =
    | HelpItem(name: string, doc: string)
    | TypeItem(name: string, kind: MetricType)
    | SampleItem(name: string, labels: Labels, value: string)
    | Remark
    | Gap

  /** What the exporter meant a line to say; a sample line does not carry its type. */
  function Meant(line: Line): Item {
    match line
    case Help(name) => HelpItem(name, "redisops metric")
    case Type(name, kind) => TypeItem(name, kind)
    case Sample(m) => SampleItem(m.name, m.labels, m.value)
    case Blank => Gap
  }

  // ---- the reader ----

  /** A name, one blank, and the rest of the line. */
  function ReadEntry(s: string): (r: Option<Read<(string, string)>>)
    ensures r.Some? ==> |r.value.rest| < |s| && IsName(r.value.value.0, true)
  {
    match ReadName(s, true)
    case None => None
    case Some(name) =>
      if name.rest == "" || name.rest[0] != ' ' then None
      else
        match Until(name.rest[1..], '\n')
        case None => None
        case Some(text) => Some(Read((name.value, text.value), text.rest))
  }

  function ReadKind(s: string): Option<MetricType> {
    if s == "counter" then Some(Counter)
    else if s == "gauge" then Some(Gauge)
    else if s == "histogram" then Some(Histogram)
    else None
  }

  function ReadComment(s: string): (r: Option<Read<Item>>)
    ensures r.Some? ==> |r.value.rest| < |s| && !r.value.value.SampleItem? && !r.value.value.Gap?
    ensures r.Some? && r.value.value.HelpItem? ==> IsName(r.value.value.name, true)
    ensures r.Some? && r.value.value.TypeItem? ==> IsName(r.value.value.name, true)
  {
    if "# HELP " <= s then
      match ReadEntry(s[7..])
      case None => None
      case Some(e) => Some(Read(HelpItem(e.value.0, e.value.1), e.rest))
    else if "# TYPE " <= s then
      match ReadEntry(s[7..])
      case None => None
      case Some(e) =>
        if ReadKind(e.value.1) == None then None
        else Some(Read(TypeItem(e.value.0, ReadKind(e.value.1).value), e.rest))
    else
      match Until(s, '\n')
      case None => None
      case Some(text) => Some(Read(Remark, text.rest))
  }

  /** A value: not empty and without blanks, since what follows a blank would be a time stamp. */
  predicate IsToken(value: string) {
    value != "" && ' ' !in value && '\n' !in value
  }

  /** One blank and a value, up to the end of the line. */
  function ReadValue(s: string): (r: Option<Read<string>>)
    ensures r.Some? ==> |r.value.rest| < |s| && IsToken(r.value.value)
  {
    if s == "" || s[0] != ' ' then None
    else
      match Until(s[1..], '\n')
      case None => None
      case Some(value) => if IsToken(value.value) then Some(value) else None
  }

  function ReadSample(s: string): (r: Option<Read<Item>>)
    ensures r.Some? ==> |r.value.rest| < |s| && r.value.value.SampleItem?
  {
    match ReadName(s, true)
    case None => None
    case Some(name) =>
      match ReadLabels(name.rest)
      case None => None
      case Some(labels) =>
        match ReadValue(labels.rest)
        case None => None
        case Some(value) => Some(Read(SampleItem(name.value, labels.value, value.value), value.rest))
  }

  function ReadLine(s: string): (r: Option<Read<Item>>)
    ensures r.Some? ==> |r.value.rest| < |s|
  {
    if s == "" then None
    else if s[0] == '\n' then Some(Read(Gap, s[1..]))
    else if s[0] == '#' then ReadComment(s)
    else ReadSample(s)
  }

  function ReadPage(s: string): Option<seq<Item>>
    decreases |s|
  {
    if s == "" then Some([])
    else
      match ReadLine(s)
      case None => None
      case Some(first) =>
        match ReadPage(first.rest)
        case None => None
        case Some(more) => Some([first.value] + more)
  }

  // ---- what the exporter prints ----

  predicate LegibleMetric(m: Metric) {
    IsName(m.name, true) && LegibleLabels(m.labels) && IsToken(m.value)
  }

  predicate Legible(line: Line) {
    match line
    case Help(name) => IsName(name, true)
    case Type(name, _) => IsName(name, true)
    case Sample(m) => LegibleMetric(m)
    case Blank => true
  }

  lemma {:induction false} EntryExactly(name: string, text: string, rest: string)
    requires '\n' !in text
    ensures ReadEntry(name + (" " + (text + "\n" + rest))) == Some(Read((name, text), rest)) <==> IsName(name, true)
  {
    var tail := " " + (text + "\n" + rest);
    NameExactly(name, true, tail);
    assert tail[1..] == text + ['\n'] + rest;
    UntilFinds(text, '\n', rest);
  }

  lemma {:induction false} SampleTail(m: Metric, rest: string)
    requires IsName(m.name, true)
    ensures var tail := LabelText(m.labels) + (" " + (m.value + "\n" + rest));
            && tail != "" && !NameChar(tail[0], true)
            && ReadName(m.name + tail, true) == Some(Read(m.name, tail))
  {
    var tail := LabelText(m.labels) + (" " + (m.value + "\n" + rest));
    assert tail[0] == if m.labels == [] then ' ' else '{';
    NameExactly(m.name, true, tail);
  }

  lemma {:induction false} ValueExactly(value: string, rest: string)
    ensures ReadValue(" " + (value + "\n" + rest)) == Some(Read(value, rest)) <==> IsToken(value)
  {
    var s := " " + (value + "\n" + rest);
    assert s[1..] == value + ['\n'] + rest;
    if IsToken(value) {
      UntilFinds(value, '\n', rest);
    }
  }

  /** Exactly the legible samples can be read back, and the reader stops at the end of the line. */
  lemma {:induction false} SampleExactly(m: Metric, rest: string)
    ensures var r := ReadSample(m.name + (LabelText(m.labels) + (" " + (m.value + "\n" + rest))));
            && (r == Some(Read(Meant(Sample(m)), rest)) <==> LegibleMetric(m))
            && (r.Some? && r.value.value == Meant(Sample(m)) ==> LegibleMetric(m))
  {
    var after := " " + (m.value + "\n" + rest);
    if IsName(m.name, true) {
      SampleTail(m, rest);
      LabelsReadBack(m.labels, after);
      ValueExactly(m.value, rest);
    }
  }

  lemma {:induction false} KindReadsBack(kind: MetricType)
    ensures ReadKind(TypeStr(kind)) == Some(kind) && '\n' !in TypeStr(kind)
  {
  }

  lemma {:induction false} HelpExactly(name: string, rest: string)
    ensures var s := LineText(Help(name)) + rest;
            s != "" && s[0] == '#' && (ReadComment(s) == Some(Read(Meant(Help(name)), rest)) <==> IsName(name, true))
  {
    var doc := "redisops metric";
    var tail := name + (" " + (doc + "\n" + rest));
    var s := LineText(Help(name)) + rest;
    assert s == "# HELP " + tail by {
      Regroup("# HELP " + name, " redisops metric\n", rest);
      Regroup("# HELP ", name, " redisops metric\n" + rest);
      assert " redisops metric\n" + rest == " " + (doc + "\n" + rest);
    }
    assert s[7..] == tail;
    EntryExactly(name, doc, rest);
  }

  lemma {:induction false} TypeExactly(name: string, kind: MetricType, rest: string)
    ensures var s := LineText(Type(name, kind)) + rest;
            s != "" && s[0] == '#'
                && (ReadComment(s) == Some(Read(Meant(Type(name, kind)), rest)) <==> IsName(name, true))
  {
    var text := TypeStr(kind);
    var tail := name + (" " + (text + "\n" + rest));
    var s := LineText(Type(name, kind)) + rest;
    assert s == "# TYPE " + tail by {
      Regroup("# TYPE " + name + " " + text, "\n", rest);
      Regroup("# TYPE " + name + " ", text, "\n" + rest);
      Regroup(text, "\n", rest);
      Regroup("# TYPE " + name, " ", text + "\n" + rest);
      Regroup("# TYPE ", name, " " + (text + "\n" + rest));
    }
    assert s[7..] == tail && s[..7] == "# TYPE ";
    assert !("# HELP " <= s) by { assert s[2] == 'T'; }
    KindReadsBack(kind);
    EntryExactly(name, text, rest);
  }

  lemma {:induction false} SampleShape(m: Metric, rest: string)
    ensures LineText(Sample(m)) + rest == m.name + (LabelText(m.labels) + (" " + (m.value + "\n" + rest)))
  {
    Regroup(m.name + LabelText(m.labels) + " " + m.value, "\n", rest);
    Regroup(m.name + LabelText(m.labels) + " ", m.value, "\n" + rest);
    Regroup(m.value, "\n", rest);
    Regroup(m.name + LabelText(m.labels), " ", m.value + "\n" + rest);
    Regroup(m.name, LabelText(m.labels), " " + (m.value + "\n" + rest));
  }

  /**
   One printed line is read as it was meant exactly when it is legible; an illegible one is never
   taken for what it was meant to say.
   */
  lemma {:induction false} LineExactly(line: Line, rest: string)
    ensures var r := ReadLine(LineText(line) + rest);
            && (r == Some(Read(Meant(line), rest)) <==> Legible(line))
            && (r.Some? && r.value.value == Meant(line) ==> Legible(line))
  {
    match line
    case Help(name) => HelpExactly(name, rest);
    case Type(name, kind) => TypeExactly(name, kind, rest);
    case Sample(m) =>
      SampleShape(m, rest);
      SampleExactly(m, rest);
      if LegibleMetric(m) {
        assert (LineText(line) + rest)[0] == m.name[0];
      }
    case Blank =>
      assert ("\n" + rest)[1..] == rest;
  }

  lemma {:induction false} PageHead(lines: seq<Line>)
    requires lines != []
    ensures PageText(lines) == LineText(lines[0]) + PageText(lines[1..])
  {
    assert Map(lines, LineText)[1..] == Map(lines[1..], LineText);
  }

  lemma {:induction false} PageExactly(lines: seq<Line>)
    ensures ReadPage(PageText(lines)) == Some(Map(lines, Meant)) <==> forall i | 0 <= i < |lines| :: Legible(lines[i])
  {
    if lines != [] {
      PageHead(lines);
      LineExactly(lines[0], PageText(lines[1..]));
      PageExactly(lines[1..]);
      FirstItem(lines);
      assert (forall i | 0 <= i < |lines| :: Legible(lines[i]))
          <==> Legible(lines[0]) && forall i | 0 <= i < |lines[1..]| :: Legible(lines[1..][i]);
    }
  }

  lemma {:induction false} FirstItem(lines: seq<Line>)
    requires lines != []
    ensures var r := ReadLine(LineText(lines[0]) + PageText(lines[1..]));
            (r == Some(Read(Meant(lines[0]), PageText(lines[1..]))) <==> Legible(lines[0]))
            && (r.Some? && r.value.value == Meant(lines[0]) ==> Legible(lines[0])) ==>
              (ReadPage(LineText(lines[0]) + PageText(lines[1..])) == Some(Map(lines, Meant)) <==>
               Legible(lines[0]) && ReadPage(PageText(lines[1..])) == Some(Map(lines[1..], Meant)))
  {
    var s, items := LineText(lines[0]) + PageText(lines[1..]), Map(lines, Meant);
    assert items == [Meant(lines[0])] + Map(lines[1..], Meant);
    assert |LineText(lines[0])| > 0;
    var r := ReadLine(s);
    if r.Some? && ReadPage(r.value.rest).Some? {
      var more := ReadPage(r.value.rest).value;
      assert ReadPage(s) == Some([r.value.value] + more);
      assert ([r.value.value] + more)[0] == r.value.value && ([r.value.value] + more)[1..] == more;
      assert items[0] == Meant(lines[0]) && items[1..] == Map(lines[1..], Meant);
    }
  }

  // ---- the whole page ----

  lemma {:induction false} SamplesExactly(lines: seq<Line>, m: Metric)
    ensures m in Samples(lines) <==> Sample(m) in lines
  {
    if lines != [] {
      SamplesExactly(lines[1..], m);
      assert lines == [lines[0]] + lines[1..];
    }
  }

  lemma {:induction false} ExpositionHolds(ms: seq<Metric>, m: Metric)
    ensures Sample(m) in Exposition(ms) <==> m in ms
  {
    var samples := Samples(Exposition(ms));
    RenderedSamplesAreStableSort(ms);
    StableSortIsPermutation(samples, ms, m);
    SamplesExactly(Exposition(ms), m);
    assert m in samples <==> m in multiset(samples);
    assert m in ms <==> m in multiset(ms);
  }

  lemma {:induction false} LegibleExposition(ms: seq<Metric>, i: nat)
    requires i < |Exposition(ms)| && forall m | m in ms :: LegibleMetric(m)
    ensures Legible(Exposition(ms)[i])
  {
    var lines := Exposition(ms);
    GroupsWellFormed(ms, i);
    match lines[i]
    case Help(_) =>
      GroupsWellFormed(ms, i + 1);
      ExpositionHolds(ms, lines[i + 2].metric);
    case Type(_, _) => ExpositionHolds(ms, lines[i + 1].metric);
    case Sample(m) => ExpositionHolds(ms, m);
    case Blank =>
  }

  /**
   A reader gets from the page the HELP, TYPE and sample lines the exporter meant, all of them
   and in order, exactly when every metric ever recorded has a name, labels and a value the
   format can carry unescaped. One illegible metric spoils the page.
   */
  lemma {:induction false} PageReadsBack(ms: seq<Metric>)
    ensures ReadPage(PageText(Exposition(ms))) == Some(Map(Exposition(ms), Meant))
        <==> forall m | m in ms :: LegibleMetric(m)
  {
    var lines := Exposition(ms);
    PageExactly(lines);
    if forall m | m in ms :: LegibleMetric(m) {
      forall i | 0 <= i < |lines|
        ensures Legible(lines[i])
      {
        LegibleExposition(ms, i);
      }
    }
    if forall i | 0 <= i < |lines| :: Legible(lines[i]) {
      forall m | m in ms
        ensures LegibleMetric(m)
      {
        ExpositionHolds(ms, m);
        var i :| 0 <= i < |lines| && lines[i] == Sample(m);
        assert Legible(lines[i]);
      }
    }
  }
}
