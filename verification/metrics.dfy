/** `MetricsExporter`: recording, grouping by name, and the label and line syntax of the text format. */
module Metrics {
  import opened Sequences

  datatype MetricType = Counter | Gauge | Histogram

  /** A label map in key order, as `std::map` iterates it. */
  type Labels = seq<(string, string)>

  /** One recorded sample; `value` is the number as the stream prints it. */
  datatype Metric = Metric(name: string, kind: MetricType, value: string, labels: Labels)

  // ---- the order of std::map ----

  predicate Below(a: string, b: string) {
    b != [] && (a == [] || a[0] < b[0] || (a[0] == b[0] && Below(a[1..], b[1..])))
  }

  lemma {:induction false} BelowTotal(a: string, b: string)
    ensures Below(a, b) || Below(b, a) || a == b
    ensures !(Below(a, b) && Below(b, a)) && !Below(a, a)
  {
    if a != [] && b != [] && a[0] == b[0] {
      BelowTotal(a[1..], b[1..]);
      assert a == [a[0]] + a[1..] && b == [b[0]] + b[1..];
    }
    if a != [] {
      BelowTotal(a[1..], a[1..]);
    }
  }

  lemma {:induction false} BelowTransitive(a: string, b: string, c: string)
    requires Below(a, b) && Below(b, c)
    ensures Below(a, c)
  {
    if a != [] && a[0] == b[0] && b[0] == c[0] {
      BelowTransitive(a[1..], b[1..], c[1..]);
    }
  }

  /** Byte by byte: at the first difference the smaller byte decides, and a proper prefix comes first. */
  lemma {:induction false} BelowExactly(a: string, b: string)
    ensures Below(a, b) <==> exists k: nat :: FirstDifference(a, b, k)
  {
    if a != [] && b != [] && a[0] == b[0] {
      BelowExactly(a[1..], b[1..]);
      if Below(a[1..], b[1..]) {
        var k: nat :| FirstDifference(a[1..], b[1..], k);
        assert a[..k + 1] == [a[0]] + a[1..][..k] && b[..k + 1] == [b[0]] + b[1..][..k];
        assert FirstDifference(a, b, k + 1);
      }
      if exists k: nat :: FirstDifference(a, b, k) {
        var k: nat :| FirstDifference(a, b, k);
        assert k > 0;
        assert a[1..][..k - 1] == a[..k][1..] && b[1..][..k - 1] == b[..k][1..];
        assert FirstDifference(a[1..], b[1..], k - 1);
      }
    } else if Below(a, b) {
      assert a[..0] == b[..0];
      assert FirstDifference(a, b, 0);
    }
  }

  predicate FirstDifference(a: string, b: string, k: nat) {
    k <= |a| && k < |b| && a[..k] == b[..k] && (k == |a| || a[k] < b[k])
  }

  // ---- grouping ----

  /** One entry of `grouped`. */
  datatype Group = Group(name: string, members: seq<Metric>)

  /** `grouped[m.name].push_back(&m)` on a map kept in key order. */
  function Insert(groups: seq<Group>, m: Metric): seq<Group> {
    if groups == [] || Below(m.name, groups[0].name) then [Group(m.name, [m])] + groups
    else if groups[0].name == m.name then [Group(m.name, groups[0].members + [m])] + groups[1..]
    else [groups[0]] + Insert(groups[1..], m)
  }

  function Grouped(ms: seq<Metric>): seq<Group> {
    if ms == [] then [] else Insert(Grouped(ms[..|ms| - 1]), ms[|ms| - 1])
  }

  ghost predicate InOrder(groups: seq<Group>) {
    && (forall i | 0 <= i < |groups| ::
          && groups[i].members != []
          && forall j | 0 <= j < |groups[i].members| :: groups[i].members[j].name == groups[i].name)
    && forall i, j | 0 <= i < j < |groups| :: Below(groups[i].name, groups[j].name)
  }

  function MembersOf(groups: seq<Group>, name: string): seq<Metric> {
    if groups == [] then []
    else if groups[0].name == name then groups[0].members
    else MembersOf(groups[1..], name)
  }

  function Named(name: string): Metric -> bool {
    (m: Metric) => m.name == name
  }

  ghost predicate AllAbove(groups: seq<Group>, name: string) {
    forall i | 0 <= i < |groups| :: Below(name, groups[i].name)
  }

  lemma {:induction false} InsertAbove(groups: seq<Group>, m: Metric, name: string)
    requires AllAbove(groups, name) && Below(name, m.name)
    ensures AllAbove(Insert(groups, m), name)
  {
    if groups != [] {
      InsertAbove(groups[1..], m, name);
    }
  }

  lemma {:induction false} InsertKeepsOrder(groups: seq<Group>, m: Metric)
    requires InOrder(groups)
    ensures InOrder(Insert(groups, m))
  {
    if groups != [] {
      var first := groups[0];
      BelowTotal(m.name, first.name);
      if Below(m.name, first.name) {
        forall i | 0 < i < |groups|
          ensures Below(m.name, groups[i].name)
        {
          BelowTransitive(m.name, first.name, groups[i].name);
        }
      } else if first.name != m.name {
        InsertKeepsOrder(groups[1..], m);
        InsertAbove(groups[1..], m, first.name);
      }
    }
  }

  lemma {:induction false} InsertMembers(groups: seq<Group>, m: Metric, name: string)
    requires InOrder(groups)
    ensures MembersOf(Insert(groups, m), name) == MembersOf(groups, name) + if m.name == name then [m] else []
  {
    if groups == [] {
    } else if Below(m.name, groups[0].name) {
      if m.name == name {
        NoMembersBelow(groups, name);
      }
    } else if groups[0].name != m.name {
      InsertMembers(groups[1..], m, name);
    }
  }

  lemma {:induction false} NoMembersBelow(groups: seq<Group>, name: string)
    requires InOrder(groups) && groups != [] && Below(name, groups[0].name)
    ensures MembersOf(groups, name) == []
  {
    BelowTotal(name, groups[0].name);
    if |groups| > 1 {
      BelowTransitive(name, groups[0].name, groups[1].name);
      NoMembersBelow(groups[1..], name);
    }
  }

  /** The map holds, in key order, exactly what was recorded under each name, in push order. */
  lemma {:induction false} GroupedExactly(ms: seq<Metric>, name: string)
    ensures InOrder(Grouped(ms)) && MembersOf(Grouped(ms), name) == Filter(ms, Named(name))
  {
    if ms != [] {
      var front, last := ms[..|ms| - 1], ms[|ms| - 1];
      GroupedExactly(front, name);
      InsertKeepsOrder(Grouped(front), last);
      InsertMembers(Grouped(front), last, name);
      FilterAppend(front, [last], Named(name));
      assert ms == front + [last];
    }
  }

  // ---- the exposition ----

  datatype Line =
    | Help(name: string)
    | Type(name: string, kind: MetricType)
    | Sample(metric: Metric)
    | Blank

  function SampleLines(ms: seq<Metric>): (lines: seq<Line>)
    ensures |lines| == |ms| && forall i | 0 <= i < |ms| :: lines[i] == Sample(ms[i])
  {
    if ms == [] then [] else [Sample(ms[0])] + SampleLines(ms[1..])
  }

  function BlockOf(g: Group): seq<Line> {
    (if g.members == [] then [] else [Help(g.name), Type(g.name, g.members[0].kind)]) + SampleLines(g.members) + [Blank]
  }

  function LinesOf(groups: seq<Group>): seq<Line> {
    if groups == [] then [] else BlockOf(groups[0]) + LinesOf(groups[1..])
  }

  function Exposition(ms: seq<Metric>): seq<Line> {
    LinesOf(Grouped(ms))
  }

  function Samples(lines: seq<Line>): seq<Metric> {
    if lines == [] then []
    else (if lines[0].Sample? then [lines[0].metric] else []) + Samples(lines[1..])
  }

  lemma {:induction false} SamplesAppend(a: seq<Line>, b: seq<Line>)
    ensures Samples(a + b) == Samples(a) + Samples(b)
  {
    if a == [] {
      assert a + b == b;
    } else {
      SamplesAppend(a[1..], b);
      assert (a + b)[0] == a[0] && (a + b)[1..] == a[1..] + b;
      Regroup(if a[0].Sample? then [a[0].metric] else [], Samples(a[1..]), Samples(b));
    }
  }

  lemma {:induction false} SamplesOfSampleLines(ms: seq<Metric>)
    ensures Samples(SampleLines(ms)) == ms
  {
    if ms != [] {
      SamplesOfSampleLines(ms[1..]);
    }
  }

  function Members(groups: seq<Group>): seq<Metric> {
    if groups == [] then [] else groups[0].members + Members(groups[1..])
  }

  lemma {:induction false} SamplesOfBlock(g: Group)
    ensures Samples(BlockOf(g)) == g.members
  {
    var head := if g.members == [] then [] else [Help(g.name), Type(g.name, g.members[0].kind)];
    var samples := SampleLines(g.members);
    NoSamples(head);
    NoSamples([Blank]);
    SamplesOfSampleLines(g.members);
    SamplesAppend(head, samples);
    assert Samples(head + samples) == g.members;
    SamplesAppend(head + samples, [Blank]);
    assert BlockOf(g) == (head + samples) + [Blank];
  }

  lemma {:induction false} NoSamples(lines: seq<Line>)
    requires forall i | 0 <= i < |lines| :: !lines[i].Sample?
    ensures Samples(lines) == []
  {
    if lines != [] {
      NoSamples(lines[1..]);
    }
  }

  lemma {:induction false} SamplesOfLines(groups: seq<Group>)
    ensures Samples(LinesOf(groups)) == Members(groups)
  {
    if groups != [] {
      SamplesAppend(BlockOf(groups[0]), LinesOf(groups[1..]));
      SamplesOfBlock(groups[0]);
      SamplesOfLines(groups[1..]);
    }
  }

  ghost predicate SortedByName(ms: seq<Metric>) {
    forall i, j | 0 <= i < j < |ms| :: !Below(ms[j].name, ms[i].name)
  }

  lemma {:induction false} MembersSorted(groups: seq<Group>)
    requires InOrder(groups)
    ensures SortedByName(Members(groups))
    ensures forall m | m in Members(groups) :: exists g :: g in groups && g.name == m.name
  {
    if groups != [] {
      var first, rest := groups[0], Members(groups[1..]);
      MembersSorted(groups[1..]);
      var all := Members(groups);
      forall i, j | 0 <= i < j < |all|
        ensures !Below(all[j].name, all[i].name)
      {
        BelowTotal(all[j].name, all[i].name);
        if i < |first.members| <= j {
          assert all[j] == rest[j - |first.members|] && all[j] in rest;
          var g :| g in groups[1..] && g.name == all[j].name;
          BelowTotal(first.name, g.name);
        }
      }
    }
  }

  lemma {:induction false} MembersFilter(groups: seq<Group>, name: string)
    requires InOrder(groups)
    ensures Filter(Members(groups), Named(name)) == MembersOf(groups, name)
  {
    if groups != [] {
      var first := groups[0];
      FilterAppend(first.members, Members(groups[1..]), Named(name));
      MembersFilter(groups[1..], name);
      if first.name == name {
        FilterAll(first.members, Named(name));
        if |groups| > 1 {
          NoMembersBelow(groups[1..], name);
        }
      } else {
        FilterNone(first.members, Named(name));
      }
    }
  }

  lemma {:induction false} FilterNone(s: seq<Metric>, p: Metric -> bool)
    requires forall i | 0 <= i < |s| :: !p(s[i])
    ensures Filter(s, p) == []
  {
    if s != [] {
      FilterNone(s[1..], p);
    }
  }

  /** `out` is a stable sort of `ms` by name: sorted, and under each name the same samples in the same order. */
  ghost predicate IsStableSort(out: seq<Metric>, ms: seq<Metric>) {
    SortedByName(out) && forall name: string :: Filter(out, Named(name)) == Filter(ms, Named(name))
  }

  /** The samples on the page are the stable sort by name of everything recorded. */
  lemma {:induction false} RenderedSamplesAreStableSort(ms: seq<Metric>)
    ensures IsStableSort(Samples(Exposition(ms)), ms)
  {
    var groups := Grouped(ms);
    GroupedExactly(ms, "");
    SamplesOfLines(groups);
    MembersSorted(groups);
    forall name: string
      ensures Filter(Members(groups), Named(name)) == Filter(ms, Named(name))
    {
      GroupedExactly(ms, name);
      MembersFilter(groups, name);
    }
  }

  /** There is only one stable sort, so the statement above determines the samples. */
  lemma {:induction false} StableSortUnique(a: seq<Metric>, b: seq<Metric>)
    requires SortedByName(a) && SortedByName(b)
    requires forall name: string :: Filter(a, Named(name)) == Filter(b, Named(name))
    ensures a == b
    decreases |a|
  {
    if a == [] {
      if b != [] {
        FirstMatches(b, a);
      }
    } else {
      FirstMatches(a, b);
      FirstMatches(b, a);
      var x, y := a[0], b[0];
      BelowTotal(x.name, y.name);
      assert Filter(a, Named(x.name)) == Filter(b, Named(x.name));
      assert Named(x.name)(x) && Named(x.name)(y);
      assert Filter(a, Named(x.name))[0] == x && Filter(b, Named(x.name))[0] == y;
      forall name: string
        ensures Filter(a[1..], Named(name)) == Filter(b[1..], Named(name))
      {
        assert Filter(a, Named(name)) == Filter(b, Named(name));
        FilterStep(a, name);
        FilterStep(b, name);
      }
      StableSortUnique(a[1..], b[1..]);
      assert a == [x] + a[1..] && b == [y] + b[1..];
    }
  }

  lemma {:induction false} FilterStep(s: seq<Metric>, name: string)
    requires s != []
    ensures Filter(s[1..], Named(name)) ==
            if s[0].name == name then Filter(s, Named(name))[1..] else Filter(s, Named(name))
  {
  }

  /** The first name of `a` occurs in `b`, so the first name of `b` is not above it. */
  lemma {:induction false} FirstMatches(a: seq<Metric>, b: seq<Metric>)
    requires a != [] && SortedByName(b)
    requires Filter(a, Named(a[0].name)) == Filter(b, Named(a[0].name))
    ensures b != [] && !Below(a[0].name, b[0].name)
  {
    var name := a[0].name;
    assert Filter(a, Named(name))[0] == a[0];
    var i := FilterFinds(b, name);
    BelowTotal(name, name);
  }

  lemma {:induction false} FilterFinds(s: seq<Metric>, name: string) returns (i: nat)
    requires Filter(s, Named(name)) != []
    ensures i < |s| && s[i].name == name
  {
    if s[0].name == name {
      i := 0;
    } else {
      i := FilterFinds(s[1..], name);
      i := i + 1;
    }
  }

  lemma {:induction false} StableSortIsPermutation(out: seq<Metric>, ms: seq<Metric>, m: Metric)
    requires forall name: string :: Filter(out, Named(name)) == Filter(ms, Named(name))
    ensures multiset(out)[m] == multiset(ms)[m]
  {
    FilterCounts(out, m);
    FilterCounts(ms, m);
    assert Filter(out, Named(m.name)) == Filter(ms, Named(m.name));
  }

  lemma {:induction false} FilterCounts(s: seq<Metric>, m: Metric)
    ensures multiset(Filter(s, Named(m.name)))[m] == multiset(s)[m]
  {
    if s != [] {
      FilterCounts(s[1..], m);
      assert s == [s[0]] + s[1..];
    }
  }

  /** What stands at line `i`: samples follow their TYPE line or another sample of the same name; TYPE follows HELP. */
  ghost predicate LineInPlace(lines: seq<Line>, i: nat, ms: seq<Metric>)
    requires i < |lines|
  {
    match lines[i]
    case Help(name) =>
      && (i == 0 || lines[i - 1].Blank?)
      && i + 1 < |lines| && lines[i + 1].Type? && lines[i + 1].name == name
    case Type(name, kind) =>
      && i > 0 && lines[i - 1] == Help(name)
      && i + 1 < |lines| && lines[i + 1].Sample? && lines[i + 1].metric.name == name
      && Filter(ms, Named(name)) != [] && kind == Filter(ms, Named(name))[0].kind
    case Sample(m) =>
      && i > 0
      && ((lines[i - 1].Type? && lines[i - 1].name == m.name)
          || (lines[i - 1].Sample? && lines[i - 1].metric.name == m.name))
      && i + 1 < |lines| && (lines[i + 1].Blank? || (lines[i + 1].Sample? && lines[i + 1].metric.name == m.name))
    case Blank => i > 0 && lines[i - 1].Sample? && (i + 1 == |lines| || lines[i + 1].Help?)
  }

  /** A group of the map: not empty, and all that was recorded under its name. */
  ghost predicate GroupOf(g: Group, ms: seq<Metric>) {
    && g.members != [] && g.members == Filter(ms, Named(g.name))
    && forall j | 0 <= j < |g.members| :: g.members[j].name == g.name
  }

  lemma {:induction false} BlockInPlace(g: Group, rest: seq<Line>, ms: seq<Metric>, i: nat)
    requires GroupOf(g, ms) && i < |BlockOf(g)|
    requires rest == [] || rest[0].Help?
    ensures LineInPlace(BlockOf(g) + rest, i, ms)
  {
    var block, lines := BlockOf(g), BlockOf(g) + rest;
    assert lines[i] == block[i] && (i > 0 ==> lines[i - 1] == block[i - 1]);
    assert if i + 1 < |block| then lines[i + 1] == block[i + 1] else rest == [] || lines[i + 1] == rest[0];
    assert 2 <= i < |block| - 2 ==> block[i + 1] == Sample(g.members[i - 1]);
    assert 2 <= i < |block| - 1 ==> block[i] == Sample(g.members[i - 2]);
    assert i > 2 ==> block[i - 1] == Sample(g.members[i - 3]);
    assert block[2] == Sample(g.members[0]);
  }

  lemma {:induction false} RestInPlace(block: seq<Line>, rest: seq<Line>, ms: seq<Metric>, k: nat)
    requires k < |rest| && LineInPlace(rest, k, ms)
    requires block != [] && block[|block| - 1].Blank?
    ensures LineInPlace(block + rest, |block| + k, ms)
  {
    var lines, i := block + rest, |block| + k;
    assert lines[i] == rest[k] && (k > 0 ==> lines[i - 1] == rest[k - 1]);
    assert k + 1 < |rest| ==> lines[i + 1] == rest[k + 1];
  }

  lemma {:induction false} FirstIsHelp(groups: seq<Group>)
    requires groups != [] ==> groups[0].members != []
    ensures LinesOf(groups) == [] || LinesOf(groups)[0].Help?
  {
  }

  lemma {:induction false} LinesInPlace(groups: seq<Group>, ms: seq<Metric>, i: nat)
    requires i < |LinesOf(groups)|
    requires forall k | 0 <= k < |groups| :: GroupOf(groups[k], ms)
    ensures LineInPlace(LinesOf(groups), i, ms)
  {
    var block, rest := BlockOf(groups[0]), LinesOf(groups[1..]);
    FirstIsHelp(groups[1..]);
    if i < |block| {
      BlockInPlace(groups[0], rest, ms, i);
    } else {
      LinesInPlace(groups[1..], ms, i - |block|);
      RestInPlace(block, rest, ms, i - |block|);
    }
  }

  lemma {:induction false} TypeNamesGroups(groups: seq<Group>, i: nat)
    requires i < |LinesOf(groups)| && LinesOf(groups)[i].Type?
    ensures exists g :: g in groups && g.name == LinesOf(groups)[i].name
  {
    var block := BlockOf(groups[0]);
    if i < |block| {
      assert block[i] == LinesOf(groups)[i];
      assert groups[0] in groups;
    } else {
      TypeNamesGroups(groups[1..], i - |block|);
    }
  }

  lemma {:induction false} TypesDistinct(groups: seq<Group>, i: nat, j: nat)
    requires InOrder(groups) && i < j < |LinesOf(groups)|
    requires LinesOf(groups)[i].Type? && LinesOf(groups)[j].Type?
    ensures LinesOf(groups)[i].name != LinesOf(groups)[j].name
  {
    var block, rest := BlockOf(groups[0]), LinesOf(groups[1..]);
    if i >= |block| {
      TypesDistinct(groups[1..], i - |block|, j - |block|);
    } else {
      assert LinesOf(groups)[i] == block[i] && block[i].name == groups[0].name;
      if j >= |block| {
        TypeNamesGroups(groups[1..], j - |block|);
        var g :| g in groups[1..] && g.name == LinesOf(groups)[j].name;
        BelowTotal(groups[0].name, g.name);
      }
    }
  }

  lemma {:induction false} MembersOfGroup(groups: seq<Group>, k: nat)
    requires InOrder(groups) && k < |groups|
    ensures MembersOf(groups, groups[k].name) == groups[k].members
  {
    if k > 0 {
      BelowTotal(groups[0].name, groups[k].name);
      MembersOfGroup(groups[1..], k - 1);
    }
  }

  /**
   The text format's rules on grouping and on TYPE lines: each name has one contiguous group,
   headed by exactly one HELP and one TYPE line, and the type is that of the first push.
   */
  lemma {:induction false} GroupsWellFormed(ms: seq<Metric>, i: nat)
    requires i < |Exposition(ms)|
    ensures LineInPlace(Exposition(ms), i, ms)
    ensures Exposition(ms)[i].Type? ==>
              forall j | 0 <= j < |Exposition(ms)| && j != i && Exposition(ms)[j].Type? ::
                Exposition(ms)[j].name != Exposition(ms)[i].name
  {
    var groups := Grouped(ms);
    GroupedExactly(ms, "");
    forall k | 0 <= k < |groups|
      ensures groups[k].members == Filter(ms, Named(groups[k].name))
    {
      GroupedExactly(ms, groups[k].name);
      MembersOfGroup(groups, k);
    }
    LinesInPlace(groups, ms, i);
    forall j | 0 <= j < |Exposition(ms)| && j != i && Exposition(ms)[j].Type? && Exposition(ms)[i].Type?
      ensures Exposition(ms)[j].name != Exposition(ms)[i].name
    {
      if i < j { TypesDistinct(groups, i, j); } else { TypesDistinct(groups, j, i); }
    }
  }

  // ---- text ----

  function TypeStr(t: MetricType): string {
    match t
    case Counter => "counter"
    case Gauge => "gauge"
    case Histogram => "histogram"
  }

  function Pair(pair: (string, string)): string {
    pair.0 + "=\"" + pair.1 + "\""
  }

  function Join(labels: Labels): string {
    if labels == [] then ""
    else if |labels| == 1 then Pair(labels[0])
    else Pair(labels[0]) + "," + Join(labels[1..])
  }

  function LabelText(labels: Labels): string {
    if labels == [] then "" else "{" + Join(labels) + "}"
  }

  function LineText(line: Line): string {
    match line
    case Help(name) => "# HELP " + name + " redisops metric\n"
    case Type(name, kind) => "# TYPE " + name + " " + TypeStr(kind) + "\n"
    case Sample(m) => m.name + LabelText(m.labels) + " " + m.value + "\n"
    case Blank => "\n"
  }

  function PageText(lines: seq<Line>): string {
    Flatten(Map(lines, LineText))
  }

  lemma {:induction false} PageAppend(a: seq<Line>, b: seq<Line>)
    ensures PageText(a + b) == PageText(a) + PageText(b)
  {
    MapAppend(a, b, LineText);
    FlattenAppend(Map(a, LineText), Map(b, LineText));
  }

  lemma {:induction false} PageStep(a: seq<Line>, line: Line)
    ensures PageText(a + [line]) == PageText(a) + LineText(line)
  {
    PageAppend(a, [line]);
    assert Map([line], LineText) == [LineText(line)];
    assert Flatten([LineText(line)]) == LineText(line) + Flatten([LineText(line)][1..]);
  }

  lemma {:induction false} JoinStep(labels: Labels, pair: (string, string))
    requires labels != []
    ensures Join(labels + [pair]) == Join(labels) + "," + Pair(pair)
  {
    var all := labels + [pair];
    assert all[0] == labels[0] && all[1..] == labels[1..] + [pair];
    if |labels| == 1 {
      assert all[1..] == [pair];
    } else {
      JoinStep(labels[1..], pair);
      var head, rest := Pair(labels[0]) + ",", Join(labels[1..]);
      Regroup(head, rest + ",", Pair(pair));
      Regroup(head, rest, ",");
    }
  }

  lemma {:induction false} LinesAppend(a: seq<Group>, b: seq<Group>)
    ensures LinesOf(a + b) == LinesOf(a) + LinesOf(b)
  {
    if a == [] {
      assert a + b == b;
    } else {
      LinesAppend(a[1..], b);
      assert (a + b)[0] == a[0] && (a + b)[1..] == a[1..] + b;
      Regroup(BlockOf(a[0]), LinesOf(a[1..]), LinesOf(b));
    }
  }

  lemma {:induction false} GroupStep(groups: seq<Group>, g: nat)
    requires g < |groups|
    ensures PageText(LinesOf(groups[..g + 1])) == PageText(LinesOf(groups[..g])) + PageText(BlockOf(groups[g]))
  {
    var one := [groups[g]];
    assert groups[..g + 1] == groups[..g] + one;
    LinesAppend(groups[..g], one);
    assert LinesOf(one) == BlockOf(groups[g]) by {
      assert one[1..] == [] && BlockOf(groups[g]) + [] == BlockOf(groups[g]);
    }
    PageAppend(LinesOf(groups[..g]), BlockOf(groups[g]));
  }

  /** `render_labels`: the loop with the `first` flag. */
  method RenderLabels(labels: Labels) returns (ss: string)
    ensures ss == LabelText(labels)
  {
    if labels == [] {
      return "";
    }
    ss := "{";
    var first := true;
    for i := 0 to |labels|
      invariant first == (i == 0)
      invariant ss == "{" + Join(labels[..i])
    {
      assert labels[..i + 1] == labels[..i] + [labels[i]];
      if !first {
        JoinStep(labels[..i], labels[i]);
        ss := ss + ",";
      }
      ss := ss + Pair(labels[i]);
      first := false;
    }
    assert labels[..|labels|] == labels;
    ss := ss + "}";
  }

  class MetricsExporter {
    var metrics: seq<Metric>

    constructor ()
      ensures metrics == []
    {
      metrics := [];
    }

    method AddCounter(name: string, value: string, labels: Labels)
      modifies this
      ensures metrics == old(metrics) + [Metric(name, Counter, value, labels)]
    {
      metrics := metrics + [Metric(name, Counter, value, labels)];
    }

    method AddGauge(name: string, value: string, labels: Labels)
      modifies this
      ensures metrics == old(metrics) + [Metric(name, Gauge, value, labels)]
    {
      metrics := metrics + [Metric(name, Gauge, value, labels)];
    }

    method AddHistogram(name: string, value: string, labels: Labels)
      modifies this
      ensures metrics == old(metrics) + [Metric(name, Histogram, value, labels)]
    {
      metrics := metrics + [Metric(name, Histogram, value, labels)];
    }

    /** `render_prometheus`: the page is the text of the exposition of everything recorded. */
    method RenderPrometheus() returns (ss: string)
      ensures ss == PageText(Exposition(metrics))
    {
      var grouped: seq<Group> := [];
      for i := 0 to |metrics|
        invariant grouped == Grouped(metrics[..i])
      {
        assert metrics[..i + 1][..i] == metrics[..i];
        grouped := Insert(grouped, metrics[i]);
      }
      assert metrics[..|metrics|] == metrics;
      ss := "";
      for g := 0 to |grouped|
        invariant ss == PageText(LinesOf(grouped[..g]))
      {
        var block := RenderGroup(grouped[g]);
        ss := ss + block;
        GroupStep(grouped, g);
      }
      assert grouped[..|grouped|] == grouped;
    }

    method RenderHeader(name: string, kind: MetricType) returns (ss: string)
      ensures ss == LineText(Help(name)) + LineText(Type(name, kind))
    {
      ss := "# HELP " + name + " redisops metric\n";
      ss := ss + ("# TYPE " + name + " " + TypeStr(kind) + "\n");
    }

    method RenderSample(m: Metric) returns (ss: string)
      ensures ss == LineText(Sample(m))
    {
      var labels := RenderLabels(m.labels);
      ss := m.name + labels + " " + m.value + "\n";
    }

    /** The inner loop, over one name's samples. */
    method RenderSamples(members: seq<Metric>) returns (ss: string)
      ensures ss == PageText(SampleLines(members))
    {
      ss := "";
      for i := 0 to |members|
        invariant ss == PageText(SampleLines(members[..i]))
      {
        var text := RenderSample(members[i]);
        ss := ss + text;
        SamplesStep(members, i);
      }
      assert members[..|members|] == members;
    }

    /** The body of the loop over names. */
    method RenderGroup(group: Group) returns (ss: string)
      ensures ss == PageText(BlockOf(group))
    {
      ss := "";
      if group.members != [] {
        ss := RenderHeader(group.name, group.members[0].kind);
      }
      var samples := RenderSamples(group.members);
      ss := ss + samples;
      ss := ss + "\n";
      ghost var head := if group.members == [] then [] else [Help(group.name), Type(group.name, group.members[0].kind)];
      if group.members != [] {
        HeaderText(group.name, group.members[0].kind);
      }
      PageAppend(head, SampleLines(group.members));
      PageStep(head + SampleLines(group.members), Blank);
    }
  }

  lemma {:induction false} SamplesStep(members: seq<Metric>, i: nat)
    requires i < |members|
    ensures PageText(SampleLines(members[..i + 1]))
        == PageText(SampleLines(members[..i])) + LineText(Sample(members[i]))
  {
    var before, after := SampleLines(members[..i]), SampleLines(members[..i + 1]);
    assert after == before + [Sample(members[i])];
    PageStep(before, Sample(members[i]));
  }

  lemma {:induction false} HeaderText(name: string, kind: MetricType)
    ensures PageText([Help(name), Type(name, kind)]) == LineText(Help(name)) + LineText(Type(name, kind))
  {
    var lines := [Help(name), Type(name, kind)];
    assert Map(lines, LineText) == [LineText(lines[0]), LineText(lines[1])];
    FlattenTwo(LineText(lines[0]), LineText(lines[1]));
  }
}
