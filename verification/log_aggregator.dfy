/** `LogAggregator`: a bounded deque with reverse-scanning queries. */
module LogAggregator {
  import opened Results
  import opened Sequences

  datatype LogEntry = LogEntry(timestamp: nat, source: string, level: string, message: string)

  const DEFAULT_MAX: nat := 10000

  /** `haystack.find(needle) != npos`. */
  predicate Contains(haystack: string, needle: string) {
    exists i: nat :: i <= |haystack| && StandsAt(haystack, i, needle)
  }

  predicate StandsAt(haystack: string, i: nat, needle: string) {
    i + |needle| <= |haystack| && haystack[i..i + |needle|] == needle
  }

  function Mentions(query: string): LogEntry -> bool {
    (e: LogEntry) => Contains(e.message, query)
  }

  function From(source: string): LogEntry -> bool {
    (e: LogEntry) => e.source == source
  }

  // ---- levels in raw lines ----

  function FindSpace(line: string): (r: Option<nat>)
    ensures r.Some? ==> r.value < |line| && line[r.value] == ' '
  {
    if line == [] then None
    else if line[0] == ' ' then Some(0)
    else
      match FindSpace(line[1..])
      case None => None
      case Some(i) => Some(i + 1)
  }

  predicate NoSpace(s: string) {
    s == "" || (s[0] != ' ' && NoSpace(s[1..]))
  }

  lemma {:induction false} Spaceless(s: string)
    requires ' ' !in s
    ensures NoSpace(s)
  {
    if s != "" {
      Spaceless(s[1..]);
    }
  }

  /** It is the first space: none before it, and none at all when there is no result. */
  lemma {:induction false} FindSpaceIsFirst(line: string)
    ensures match FindSpace(line) case None => NoSpace(line) case Some(i) => NoSpace(line[..i])
  {
    if line != "" && line[0] != ' ' {
      FindSpaceIsFirst(line[1..]);
      var r := FindSpace(line[1..]);
      if r.Some? {
        assert line[..r.value + 1][1..] == line[1..][..r.value];
      }
    }
  }

  /** `line.substr(line.find(' ') + 1)`; without a space `npos + 1` wraps to 0 and the whole line stays. */
  function AfterSpace(line: string): string {
    match FindSpace(line)
    case None => line
    case Some(i) => line[i + 1..]
  }

  predicate StartsWith(line: string, prefix: string) {
    prefix <= line
  }

  function Classify(line: string): (string, string) {
    if StartsWith(line, "[ERROR]") || StartsWith(line, "ERROR:") then ("error", AfterSpace(line))
    else if StartsWith(line, "[WARN]") || StartsWith(line, "WARN:") then ("warn", AfterSpace(line))
    else if StartsWith(line, "[DEBUG]") || StartsWith(line, "DEBUG:") then ("debug", AfterSpace(line))
    else ("info", line)
  }

  const TAGS: map<string, string> :=
    map["[ERROR]" := "error", "ERROR:" := "error", "[WARN]" := "warn", "WARN:" := "warn",
        "[DEBUG]" := "debug", "DEBUG:" := "debug"]

  /** What each tag means when a space follows it. */
  lemma {:induction false} SixTags(rest: string)
    ensures Classify("[ERROR]" + (" " + rest)) == ("error", rest)
    ensures Classify("ERROR:" + (" " + rest)) == ("error", rest)
    ensures Classify("[WARN]" + (" " + rest)) == ("warn", rest)
    ensures Classify("WARN:" + (" " + rest)) == ("warn", rest)
    ensures Classify("[DEBUG]" + (" " + rest)) == ("debug", rest)
    ensures Classify("DEBUG:" + (" " + rest)) == ("debug", rest)
  {
    var more := " " + rest;
    assert FindSpace(more) == Some(0) && more[1..] == rest;
    TaggedLine("[ERROR]", more);
    TaggedLine("ERROR:", more);
    TaggedLine("[WARN]", more);
    TaggedLine("WARN:", more);
    TaggedLine("[DEBUG]", more);
    TaggedLine("DEBUG:", more);
  }

  predicate Tagged(line: string) {
    exists tag :: tag in TAGS && StartsWith(line, tag)
  }

  /** Every other line is kept whole, at level info... */
  lemma {:induction false} PlainLine(line: string)
    requires !Tagged(line)
    ensures Classify(line) == ("info", line)
  {
    assert "[ERROR]" in TAGS && "ERROR:" in TAGS && "[WARN]" in TAGS && "WARN:" in TAGS;
    assert "[DEBUG]" in TAGS && "DEBUG:" in TAGS;
  }

  /** ...so a line is changed exactly when it has a tag and a space, and then something is taken off its front. */
  lemma {:induction false} LineChanged(line: string)
    ensures Classify(line).1 != line <==> Tagged(line) && ' ' in line
    ensures exists k: nat :: k <= |line| && Classify(line).1 == line[k..]
  {
    if Tagged(line) {
      var tag :| tag in TAGS && StartsWith(line, tag);
      Level(line, tag);
      SpaceFound(line);
      if FindSpace(line).Some? {
        assert Classify(line).1 == line[FindSpace(line).value + 1..];
      } else {
        assert line[0..] == line;
      }
    } else {
      PlainLine(line);
      assert line[0..] == line;
    }
  }

  lemma {:induction false} SpaceFound(line: string)
    ensures FindSpace(line).Some? <==> ' ' in line
  {
    if line != "" && line[0] != ' ' {
      SpaceFound(line[1..]);
      assert line == [line[0]] + line[1..];
    }
  }

  lemma {:induction false} FirstSpace(tag: string, rest: string)
    requires NoSpace(tag)
    ensures FindSpace(tag + rest) == match FindSpace(rest) case None => None case Some(i) => Some(|tag| + i)
  {
    if tag == [] {
      assert tag + rest == rest;
    } else {
      var first, more := tag[0], tag[1..] + rest;
      FirstSpace(tag[1..], rest);
      assert tag + rest == [first] + more;
      SkipOne(first, more);
    }
  }

  lemma {:induction false} SkipOne(c: char, line: string)
    requires c != ' '
    ensures FindSpace([c] + line) == match FindSpace(line) case None => None case Some(i) => Some(1 + i)
  {
    assert ([c] + line)[1..] == line;
  }

  /**
   A tagged line: the level is the tag's, and the message is what follows the first space after
   the tag. Exactly when that space comes right after the tag, nothing but the tag and the
   space is taken off; characters glued to the tag are lost, and without any space the tag stays.
   */
  lemma {:induction false} TaggedLine(tag: string, rest: string)
    requires tag in TAGS
    ensures var (level, message) := Classify(tag + rest);
            && level == TAGS[tag]
            && message == (match FindSpace(rest) case None => tag + rest case Some(i) => rest[i + 1..])
            && (|message| == |tag + rest| - |tag| - 1 <==> StartsWith(rest, " "))
  {
    Level(tag + rest, tag);
    Spaceless(tag);
    AfterTag(tag, rest);
  }

  lemma {:induction false} AfterTag(tag: string, rest: string)
    requires NoSpace(tag)
    ensures var message := AfterSpace(tag + rest);
            && message == (match FindSpace(rest) case None => tag + rest case Some(i) => rest[i + 1..])
            && (|message| == |tag + rest| - |tag| - 1 <==> StartsWith(rest, " "))
  {
    FirstSpace(tag, rest);
    SpaceFirst(rest);
    if FindSpace(rest).Some? {
      DropBoth(tag, rest, FindSpace(rest).value + 1);
    }
  }

  lemma {:induction false} DropBoth(tag: string, rest: string, k: nat)
    requires k <= |rest|
    ensures (tag + rest)[|tag| + k..] == rest[k..]
  {
  }

  lemma {:induction false} SpaceFirst(rest: string)
    ensures FindSpace(rest) == Some(0) <==> StartsWith(rest, " ")
  {
    if rest != [] {
      assert rest[..1] == [rest[0]];
    }
  }

  lemma {:induction false} Level(line: string, tag: string)
    requires tag in TAGS && StartsWith(line, tag)
    ensures Classify(line) == (TAGS[tag], AfterSpace(line)) && ' ' !in tag
  {
    assert tag[0] == line[0] && tag[1] == line[1];
  }

  // ---- the store as a value ----

  /** `pushed` is everything pushed since the last `clear`, `entries` what is still held. */
  datatype Store = Store(pushed: seq<LogEntry>, entries: seq<LogEntry>, max: nat)

  datatype Op = Push(entry: LogEntry) | SetMax(max: nat) | Clear

  function Apply(s: Store, op: Op): Store {
    match op
    case Push(e) => s.(pushed := s.pushed + [e], entries := LastN(s.entries + [e], s.max))
    case SetMax(max) => s.(max := max)
    case Clear => s.(pushed := [], entries := [])
  }

  function ApplyAll(s: Store, ops: seq<Op>): Store
    decreases |ops|
  {
    if ops == [] then s else ApplyAll(Apply(s, ops[0]), ops[1..])
  }

  class LogAggregator {
    var entries: seq<LogEntry>
    var maxEntries: nat
    ghost var pushed: seq<LogEntry>

    ghost function View(): Store
      reads this
    {
      Store(pushed, entries, maxEntries)
    }

    constructor ()
      ensures View() == Store([], [], DEFAULT_MAX)
    {
      entries, maxEntries, pushed := [], DEFAULT_MAX, [];
    }

    /** `now` is the steady clock's reading. */
    method Push(now: nat, source: string, level: string, message: string)
      modifies this
      ensures View() == Apply(old(View()), Op.Push(LogEntry(now, source, level, message)))
      ensures |entries| == if old(|entries|) + 1 <= maxEntries then old(|entries|) + 1 else maxEntries
    {
      var e := LogEntry(now, source, level, message);
      entries := entries + [e];
      pushed := pushed + [e];
      ghost var all := entries;
      while |entries| > maxEntries
        invariant |entries| <= |all| && entries == all[|all| - |entries|..]
        invariant |entries| >= maxEntries || entries == all
        invariant pushed == old(pushed) + [e] && maxEntries == old(maxEntries)
        decreases |entries|
      {
        entries := entries[1..];
      }
    }

    method PushRaw(now: nat, source: string, line: string)
      modifies this
      ensures var (level, message) := Classify(line);
              View() == Apply(old(View()), Op.Push(LogEntry(now, source, level, message)))
    {
      var level, message := "info", line;
      if StartsWith(line, "[ERROR]") || StartsWith(line, "ERROR:") {
        level, message := "error", AfterSpace(line);
      } else if StartsWith(line, "[WARN]") || StartsWith(line, "WARN:") {
        level, message := "warn", AfterSpace(line);
      } else if StartsWith(line, "[DEBUG]") || StartsWith(line, "DEBUG:") {
        level, message := "debug", AfterSpace(line);
      }
      Push(now, source, level, message);
    }

    /** The scan both queries share in shape: newest first, cut off at `limit`, then reversed. */
    method Search(query: string, limit: nat) returns (results: seq<LogEntry>)
      ensures results == LastN(Filter(entries, Mentions(query)), limit)
      ensures forall e | e in results :: e in entries && Contains(e.message, query)
    {
      results := [];
      var it := |entries|;
      assert entries[it..] == [];
      while it > 0 && |results| < limit
        invariant 0 <= it <= |entries| && |results| <= limit
        invariant Reversed(results) == Filter(entries[it..], Mentions(query))
      {
        it := it - 1;
        ScanStep(entries, it, Mentions(query));
        if Contains(entries[it].message, query) {
          ReversedAppend(results, entries[it]);
          results := results + [entries[it]];
        }
      }
      CutOff(entries, it, Mentions(query), limit);
      results := Reversed(results);
      FoundOnly(entries, Mentions(query), limit);
    }

    method GetBySource(source: string, limit: nat) returns (results: seq<LogEntry>)
      ensures results == LastN(Filter(entries, From(source)), limit)
      ensures forall e | e in results :: e in entries && e.source == source
    {
      results := [];
      var it := |entries|;
      assert entries[it..] == [];
      while it > 0 && |results| < limit
        invariant 0 <= it <= |entries| && |results| <= limit
        invariant Reversed(results) == Filter(entries[it..], From(source))
      {
        it := it - 1;
        ScanStep(entries, it, From(source));
        if entries[it].source == source {
          ReversedAppend(results, entries[it]);
          results := results + [entries[it]];
        }
      }
      CutOff(entries, it, From(source), limit);
      results := Reversed(results);
      FoundOnly(entries, From(source), limit);
    }

    method GetRecent(count: nat) returns (results: seq<LogEntry>)
      ensures results == LastN(entries, count)
    {
      var start := if |entries| > count then |entries| - count else 0;
      results := [];
      for i := start to |entries|
        invariant results == entries[start..i]
      {
        results := results + [entries[i]];
      }
    }

    method SetMaxEntries(max: nat)
      modifies this
      ensures View() == Apply(old(View()), SetMax(max))
    {
      maxEntries := max;
    }

    method ClearAll()
      modifies this
      ensures View() == Apply(old(View()), Clear)
    {
      entries, pushed := [], [];
    }
  }

  lemma {:induction false} ScanStep(entries: seq<LogEntry>, it: nat, p: LogEntry -> bool)
    requires it < |entries|
    ensures Filter(entries[it..], p) == (if p(entries[it]) then [entries[it]] else []) + Filter(entries[it + 1..], p)
  {
    assert entries[it..][1..] == entries[it + 1..];
  }

  lemma {:induction false} ReversedAppend(s: seq<LogEntry>, e: LogEntry)
    ensures Reversed(s + [e]) == [e] + Reversed(s)
  {
  }

  /** A scan that stopped at `it`, at the front or with `limit` hits, has seen the last hits. */
  lemma {:induction false} CutOff(entries: seq<LogEntry>, it: nat, p: LogEntry -> bool, limit: nat)
    requires it <= |entries| && |Filter(entries[it..], p)| <= limit
    requires it == 0 || |Filter(entries[it..], p)| == limit
    ensures Filter(entries[it..], p) == LastN(Filter(entries, p), limit)
  {
    FilterAppend(entries[..it], entries[it..], p);
    assert entries[..it] + entries[it..] == entries;
  }

  lemma {:induction false} FoundOnly(entries: seq<LogEntry>, p: LogEntry -> bool, limit: nat)
    ensures forall e | e in LastN(Filter(entries, p), limit) :: e in entries && p(e)
  {
    forall e | e in LastN(Filter(entries, p), limit)
      ensures e in entries && p(e)
    {
      FilterWithin(entries, p, e);
    }
  }

  // ---- queries ----

  /** What a query looks for: the haystack is the needle with something before and after it. */
  lemma {:induction false} ContainsExactly(haystack: string, needle: string)
    ensures Contains(haystack, needle) <==> exists a, b :: haystack == a + needle + b
  {
    if Contains(haystack, needle) {
      var i: nat :| i <= |haystack| && StandsAt(haystack, i, needle);
      var a, b := haystack[..i], haystack[i + |needle|..];
      assert haystack == a + needle + b;
    }
    if exists a, b :: haystack == a + needle + b {
      var a, b :| haystack == a + needle + b;
      assert StandsAt(haystack, |a|, needle);
    }
  }

  /** Asking for fewer results gives the tail of what asking for more gives. */
  lemma {:induction false} SmallerLimitIsSuffix(entries: seq<LogEntry>, p: LogEntry -> bool, k: nat, n: nat)
    requires k <= n
    ensures LastN(Filter(entries, p), k) == LastN(LastN(Filter(entries, p), n), k)
  {
    LastOfLast(Filter(entries, p), n, k);
  }

  lemma {:induction false} ContainsTransitive(a: string, b: string, c: string)
    requires Contains(a, b) && Contains(b, c)
    ensures Contains(a, c)
  {
    var i: nat :| i <= |a| && StandsAt(a, i, b);
    var j: nat :| j <= |b| && StandsAt(b, j, c);
    forall k | 0 <= k < |c|
      ensures a[i + j..i + j + |c|][k] == c[k]
    {
      assert a[i..i + |b|][j + k] == b[j + k] && b[j..j + |c|][k] == c[k];
    }
    assert StandsAt(a, i + j, c);
  }

  /** Narrowing a query searches within what the wider one found: nothing new turns up, and the order stays. */
  lemma {:induction false} NarrowerQuery(entries: seq<LogEntry>, query: string, narrower: string)
    requires Contains(narrower, query)
    ensures Filter(Filter(entries, Mentions(query)), Mentions(narrower)) == Filter(entries, Mentions(narrower))
  {
    if entries != [] {
      NarrowerQuery(entries[1..], query, narrower);
      if Contains(entries[0].message, narrower) {
        ContainsTransitive(entries[0].message, narrower, query);
      }
      FilterFirst(entries, Mentions(query));
      FilterFirst(entries, Mentions(narrower));
      if Contains(entries[0].message, query) {
        var found := Filter(entries, Mentions(query));
        FilterFirst(found, Mentions(narrower));
        assert found[1..] == Filter(entries[1..], Mentions(query));
      }
    }
  }

  lemma {:induction false} FilterFirst(entries: seq<LogEntry>, p: LogEntry -> bool)
    requires entries != []
    ensures Filter(entries, p) == (if p(entries[0]) then [entries[0]] else []) + Filter(entries[1..], p)
  {
  }

  /** The empty query matches everything: `search("", n)` is `get_recent(n)`. */
  lemma {:induction false} EmptyQueryIsRecent(entries: seq<LogEntry>, n: nat)
    ensures LastN(Filter(entries, Mentions("")), n) == LastN(entries, n)
  {
    forall i | 0 <= i < |entries|
      ensures Mentions("")(entries[i])
    {
      assert StandsAt(entries[i].message, 0, "");
    }
    FilterAll(entries, Mentions(""));
  }

  // ---- whole runs ----

  /** The entries held are a contiguous suffix of the pushes since the last clear. */
  ghost predicate Retained(s: Store) {
    |s.entries| <= |s.pushed| && s.entries == LastN(s.pushed, |s.entries|)
  }

  lemma {:induction false} RetentionOverRuns(s: Store, ops: seq<Op>)
    requires Retained(s)
    ensures Retained(ApplyAll(s, ops))
    decreases |ops|
  {
    if ops != [] {
      var t := Apply(s, ops[0]);
      if ops[0].Push? {
        var e := ops[0].entry;
        LastOfAppend(s.pushed, |s.entries|, e, |t.entries|);
        LastOfLast(s.entries + [e], s.max, |t.entries|);
      }
      RetentionOverRuns(t, ops[1..]);
    }
  }

  /** While the limit stays the same, the store is exactly the last `max` of what was pushed. */
  lemma {:induction false} FixedLimit(s: Store, ops: seq<Op>)
    requires s.entries == LastN(s.pushed, s.max)
    requires forall i | 0 <= i < |ops| :: !ops[i].SetMax?
    ensures var t := ApplyAll(s, ops); t.max == s.max && t.entries == LastN(t.pushed, s.max)
    decreases |ops|
  {
    if ops != [] {
      var t := Apply(s, ops[0]);
      if ops[0].Push? {
        LastOfAppend(s.pushed, s.max, ops[0].entry, s.max);
      }
      FixedLimit(t, ops[1..]);
    }
  }

  // ---- what a run leaves, in terms of its operations alone ----

  function Pushes(ops: seq<Op>): seq<LogEntry> {
    if ops == [] then []
    else Pushes(ops[..|ops| - 1]) + if ops[|ops| - 1].Push? then [ops[|ops| - 1].entry] else []
  }

  /** The operations after the last clear. */
  function SinceClear(ops: seq<Op>): (r: seq<Op>)
    ensures |r| <= |ops| && r == ops[|ops| - |r|..]
    ensures forall i | 0 <= i < |r| :: !r[i].Clear?
    ensures |r| < |ops| ==> ops[|ops| - |r| - 1].Clear?
  {
    if ops == [] || ops[|ops| - 1].Clear? then [] else SinceClear(ops[..|ops| - 1]) + [ops[|ops| - 1]]
  }

  /** The limit set last, or else the one the store began with. */
  function LimitAfter(limit: nat, ops: seq<Op>): nat {
    if ops == [] then limit
    else if ops[|ops| - 1].SetMax? then ops[|ops| - 1].max
    else LimitAfter(limit, ops[..|ops| - 1])
  }

  const EMPTY := Store([], [], DEFAULT_MAX)

  lemma {:induction false} ApplyLast(s: Store, ops: seq<Op>)
    requires ops != []
    ensures ApplyAll(s, ops) == Apply(ApplyAll(s, ops[..|ops| - 1]), ops[|ops| - 1])
    decreases |ops|
  {
    if |ops| == 1 {
      assert ops[..0] == [] && ops[1..] == [];
    } else {
      var rest := ops[1..];
      ApplyLast(Apply(s, ops[0]), rest);
      assert rest[..|rest| - 1] == ops[..|ops| - 1][1..] && rest[|rest| - 1] == ops[|ops| - 1];
    }
  }

  lemma {:induction false} PushesSinceClear(ops: seq<Op>)
    requires ops != []
    ensures var front, last := ops[..|ops| - 1], ops[|ops| - 1];
            Pushes(SinceClear(ops)) ==
            if last.Clear? then [] else Pushes(SinceClear(front)) + if last.Push? then [last.entry] else []
  {
    var front, last := ops[..|ops| - 1], ops[|ops| - 1];
    if !last.Clear? {
      var recent := SinceClear(front) + [last];
      assert recent[..|recent| - 1] == SinceClear(front);
    }
  }

  /** How many entries are held: one more per push up to the limit of that moment; a new limit alone drops none. */
  function HeldAfter(limit: nat, ops: seq<Op>): nat {
    if ops == [] then 0
    else
      var front, held := ops[..|ops| - 1], HeldAfter(limit, ops[..|ops| - 1]);
      match ops[|ops| - 1]
      case Push(_) => if held + 1 <= LimitAfter(limit, front) then held + 1 else LimitAfter(limit, front)
      case SetMax(_) => held
      case Clear => 0
  }

  /** After any run: the limit set last, and exactly the latest pushes since the last clear, as many as are held. */
  lemma {:induction false} StoreAfter(ops: seq<Op>)
    ensures var t := ApplyAll(EMPTY, ops);
            && t.max == LimitAfter(10000, ops)
            && t.pushed == Pushes(SinceClear(ops))
            && HeldAfter(10000, ops) <= |t.pushed|
            && t.entries == LastN(Pushes(SinceClear(ops)), HeldAfter(10000, ops))
  {
    RetentionOverRuns(EMPTY, ops);
    if ops != [] {
      StoreAfter(ops[..|ops| - 1]);
      ApplyLast(EMPTY, ops);
      PushesSinceClear(ops);
    }
  }

  /** A limit that is never changed: exactly the last 10000 pushes since the last clear. */
  lemma {:induction false} DefaultStore(ops: seq<Op>)
    requires forall i | 0 <= i < |ops| :: !ops[i].SetMax?
    ensures ApplyAll(EMPTY, ops).entries == LastN(Pushes(SinceClear(ops)), 10000)
  {
    FixedLimit(EMPTY, ops);
    StoreAfter(ops);
  }

  ghost predicate Ordered(s: seq<LogEntry>) {
    forall i, j | 0 <= i < j < |s| :: s[i].timestamp <= s[j].timestamp
  }

  /** The pushes of a run carry the readings of a clock that does not go back. */
  ghost predicate MonotoneClock(now: nat, ops: seq<Op>)
    decreases |ops|
  {
    ops == [] ||
    (match ops[0]
     case Push(e) => now <= e.timestamp && MonotoneClock(e.timestamp, ops[1..])
     case _ => MonotoneClock(now, ops[1..]))
  }

  lemma {:induction false} OrderedOverRuns(s: Store, ops: seq<Op>, now: nat)
    requires Retained(s) && Ordered(s.pushed) && MonotoneClock(now, ops)
    requires forall i | 0 <= i < |s.pushed| :: s.pushed[i].timestamp <= now
    ensures Ordered(ApplyAll(s, ops).pushed) && Ordered(ApplyAll(s, ops).entries)
    decreases |ops|
  {
    RetentionOverRuns(s, ops);
    if ops != [] {
      var t := Apply(s, ops[0]);
      RetentionOverRuns(s, [ops[0]]);
      assert [ops[0]][1..] == [];
      assert ApplyAll(s, [ops[0]]) == t;
      OrderedOverRuns(t, ops[1..], if ops[0].Push? then ops[0].entry.timestamp else now);
    }
  }

  lemma {:induction false} FilterWithin(s: seq<LogEntry>, p: LogEntry -> bool, e: LogEntry)
    requires e in Filter(s, p)
    ensures e in s && p(e)
  {
    FilterFirst(s, p);
    if e in Filter(s[1..], p) {
      FilterWithin(s[1..], p, e);
    }
  }

  /** Filtering and cutting keep the order, so every query result is in time order too. */
  lemma {:induction false} QueriesOrdered(s: seq<LogEntry>, p: LogEntry -> bool)
    requires Ordered(s)
    ensures Ordered(Filter(s, p))
  {
    if s != [] {
      var rest := Filter(s[1..], p);
      QueriesOrdered(s[1..], p);
      forall i | 0 <= i < |rest|
        ensures s[0].timestamp <= rest[i].timestamp
      {
        FilterWithin(s[1..], p, rest[i]);
      }
    }
  }

  lemma {:induction false} QueryResultsOrdered(ops: seq<Op>, p: LogEntry -> bool, limit: nat)
    requires MonotoneClock(0, ops)
    ensures Ordered(LastN(Filter(ApplyAll(Store([], [], DEFAULT_MAX), ops).entries, p), limit))
  {
    OrderedOverRuns(Store([], [], DEFAULT_MAX), ops, 0);
    QueriesOrdered(ApplyAll(Store([], [], DEFAULT_MAX), ops).entries, p);
  }
}
