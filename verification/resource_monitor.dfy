/** `ResourceMonitor`: CPU deltas shared by several callers, limits, alerts and the history window. */
module ResourceMonitor {
  import opened Bytes
  import opened Results
  import opened Sequences

  datatype Limits = Limits(memory: UInt64, cpu: UInt32, pids: UInt32)

  datatype Usage = Usage(memory: UInt64, cpu: UInt32, pids: UInt32)

  /** What /proc says at one moment: resident bytes, and user plus system ticks if the stat file opens. */
  datatype Reading = Reading(memory: UInt64, ticks: Option<UInt64>)

  // ---- one read ----

  /** Unsigned subtraction of two tick totals. */
  function Delta(prev: UInt64, total: UInt64): UInt64 {
    (total - prev) % TWO_64
  }

  /** `static_cast<uint32_t>(delta * 100 / hz)` in 64-bit arithmetic. */
  function Percent(delta: UInt64, hz: nat): UInt32
    requires hz > 0
  {
    delta * 100 % TWO_64 / hz % TWO_32
  }

  function NextPrev(prev: UInt64, r: Reading): UInt64 {
    if r.ticks.Some? then r.ticks.value else prev
  }

  /** The thread count is never picked up from the status file, so `pids` stays 0. */
  function UsageOf(prev: UInt64, r: Reading, hz: nat): Usage
    requires hz > 0
  {
    Usage(r.memory, if r.ticks.Some? then Percent(Delta(prev, r.ticks.value), hz) else 0, 0)
  }

  // ---- all reads of a monitor, whoever makes them ----

  function LastTotal(prev: UInt64, readings: seq<Reading>): UInt64
    decreases |readings|
  {
    if readings == [] then prev else LastTotal(NextPrev(prev, readings[0]), readings[1..])
  }

  function TotalDelta(prev: UInt64, readings: seq<Reading>): nat
    decreases |readings|
  {
    if readings == [] then 0
    else
      (if readings[0].ticks.Some? then Delta(prev, readings[0].ticks.value) else 0)
      + TotalDelta(NextPrev(prev, readings[0]), readings[1..])
  }

  function TotalPercent(prev: UInt64, readings: seq<Reading>, hz: nat): nat
    requires hz > 0
    decreases |readings|
  {
    if readings == [] then 0
    else UsageOf(prev, readings[0], hz).cpu + TotalPercent(NextPrev(prev, readings[0]), readings[1..], hz)
  }

  /** Reads that opened the stat file. */
  function Opened(readings: seq<Reading>): nat {
    if readings == [] then 0 else (if readings[0].ticks.Some? then 1 else 0) + Opened(readings[1..])
  }

  predicate NonDecreasing(prev: UInt64, readings: seq<Reading>)
    decreases |readings|
  {
    readings == [] || (prev <= NextPrev(prev, readings[0]) && NonDecreasing(NextPrev(prev, readings[0]), readings[1..]))
  }

  lemma {:induction false} TotalsGrow(prev: UInt64, readings: seq<Reading>)
    requires NonDecreasing(prev, readings)
    ensures prev <= LastTotal(prev, readings)
    decreases |readings|
  {
    if readings != [] {
      TotalsGrow(NextPrev(prev, readings[0]), readings[1..]);
    }
  }

  /** How often the total was smaller than the one before (another process under the same pid). */
  function Backsteps(prev: UInt64, readings: seq<Reading>): nat
    decreases |readings|
  {
    if readings == [] then 0
    else
      var next := NextPrev(prev, readings[0]);
      (if next < prev then 1 else 0) + Backsteps(next, readings[1..])
  }

  /**
   Ticks are conserved exactly when the total never goes back: the deltas handed out, whoever
   asked, add up to the growth of the total. Every step back adds one turn of the 64-bit counter.
   */
  lemma {:induction false} TicksConserved(prev: UInt64, readings: seq<Reading>)
    ensures TotalDelta(prev, readings) == LastTotal(prev, readings) - prev + TWO_64 * Backsteps(prev, readings)
    ensures TotalDelta(prev, readings) == LastTotal(prev, readings) - prev <==> NonDecreasing(prev, readings)
    decreases |readings|
  {
    BackstepsZero(prev, readings);
    if readings != [] {
      TicksConserved(NextPrev(prev, readings[0]), readings[1..]);
    }
  }

  lemma {:induction false} BackstepsZero(prev: UInt64, readings: seq<Reading>)
    ensures Backsteps(prev, readings) == 0 <==> NonDecreasing(prev, readings)
    decreases |readings|
  {
    if readings != [] {
      BackstepsZero(NextPrev(prev, readings[0]), readings[1..]);
    }
  }

  lemma {:induction false} DivisionExact(x: nat, c: nat)
    requires c > 0
    ensures c * (x / c) <= x <= c * (x / c) + c - 1
  {
    assert x == c * (x / c) + x % c;
  }

  lemma {:induction false} QuotientBelow(x: nat, c: nat, bound: nat)
    requires c > 0 && x < c * bound
    ensures x / c < bound
  {
    DivisionExact(x, c);
    if x / c >= bound {
      Scale(c, bound, x / c);
    }
  }

  lemma {:induction false} PercentPlain(delta: UInt64, hz: nat)
    requires hz > 0 && delta * 100 < TWO_64 && delta * 100 / hz < TWO_32
    ensures Percent(delta, hz) == delta * 100 / hz
  {
    SmallMod(delta * 100, TWO_64);
    SmallMod(delta * 100 / hz, TWO_32);
  }

  lemma {:induction false} SmallMod(x: nat, m: nat)
    requires x < m
    ensures x % m == x
  {
  }

  lemma {:induction false} PercentExact(delta: UInt64, hz: nat)
    requires hz > 0 && delta * 100 < TWO_64 && delta * 100 < hz * TWO_32
    ensures hz * Percent(delta, hz) <= 100 * delta <= hz * Percent(delta, hz) + hz - 1
  {
    QuotientBelow(delta * 100, hz, TWO_32);
    PercentPlain(delta, hz);
    DivisionExact(delta * 100, hz);
  }

  lemma {:induction false} Scale(c: nat, a: nat, b: nat)
    requires a <= b
    ensures c * a <= c * b
  {
  }

  /** `sum` percent over `k` reads stand for `time` ticks: never more, and less than one short per read. */
  predicate Accounts(hz: nat, sum: nat, time: int, k: nat)
    requires hz > 0
  {
    hz * sum <= 100 * time <= hz * sum + k * (hz - 1)
  }

  lemma {:induction false} ReadAccounts(prev: UInt64, r: Reading, hz: nat)
    requires hz > 0 && prev <= NextPrev(prev, r)
    requires 100 * (NextPrev(prev, r) - prev) < TWO_64 && 100 * (NextPrev(prev, r) - prev) < hz * TWO_32
    ensures Accounts(hz, UsageOf(prev, r, hz).cpu, NextPrev(prev, r) - prev, if r.ticks.Some? then 1 else 0)
  {
    if r.ticks.Some? {
      var d := r.ticks.value - prev;
      assert Delta(prev, r.ticks.value) == d;
      PercentExact(d, hz);
    }
  }

  lemma {:induction false} AddUp(hz: nat, now: nat, later: nat, d: int, rest: int, k: nat, n: nat)
    requires hz > 0 && Accounts(hz, now, d, k) && Accounts(hz, later, rest, n)
    ensures Accounts(hz, now + later, d + rest, k + n)
  {
    Distribute(hz, now, later);
    Distribute(hz - 1, k, n);
  }

  /**
   The percentages add up too: over any interleaving of reads they account for all of the time
   consumed, never for more, and for less than one percent short per read.
   */
  lemma {:induction false} PercentAccountsForTime(prev: UInt64, readings: seq<Reading>, hz: nat)
    requires hz > 0 && NonDecreasing(prev, readings)
    requires 100 * (LastTotal(prev, readings) - prev) < TWO_64
    requires 100 * (LastTotal(prev, readings) - prev) < hz * TWO_32
    ensures Accounts(hz, TotalPercent(prev, readings, hz), LastTotal(prev, readings) - prev, Opened(readings))
    decreases |readings|
  {
    if readings != [] {
      var r, next, rest := readings[0], NextPrev(prev, readings[0]), readings[1..];
      TotalsGrow(next, rest);
      ReadAccounts(prev, r, hz);
      PercentAccountsForTime(next, rest, hz);
      AddUp(hz, UsageOf(prev, r, hz).cpu, TotalPercent(next, rest, hz), next - prev, LastTotal(next, rest) - next,
            if r.ticks.Some? then 1 else 0, Opened(rest));
    }
  }

  lemma {:induction false} Distribute(c: int, a: int, b: int)
    ensures c * (a + b) == c * a + c * b
    ensures (a + b) * c == a * c + b * c
  {
  }

  // ---- limits and alerts ----

  predicate OverLimit(l: Limits, u: Usage) {
    u.memory > l.memory || u.cpu > l.cpu || u.pids > l.pids
  }

  datatype Level = Warning | Critical

  datatype Alert = Alert(level: Level, resource: string)

  function Violations(l: Limits, u: Usage): seq<Alert> {
    (if u.memory > l.memory then [Alert(Critical, "memory")] else [])
    + (if u.cpu > l.cpu then [Alert(Warning, "cpu")] else [])
  }

  /** Thresholds of 0.9 and 0.75 of the memory limit, as exact ratios. */
  function Alerts(l: Limits, u: Usage): (alerts: seq<Alert>)
    ensures Alert(Critical, "memory") in alerts <==> 10 * u.memory > 9 * l.memory
    ensures Alert(Warning, "memory") in alerts <==> 4 * u.memory > 3 * l.memory && 10 * u.memory <= 9 * l.memory
    ensures Alert(Warning, "cpu") in alerts <==> u.cpu > l.cpu
    ensures Alert(Critical, "pids") in alerts <==> u.pids > l.pids
    ensures forall i, j | 0 <= i < j < |alerts| :: alerts[i].resource != alerts[j].resource
  {
    (if 10 * u.memory > 9 * l.memory then [Alert(Critical, "memory")]
     else if 4 * u.memory > 3 * l.memory then [Alert(Warning, "memory")]
     else [])
    + (if u.cpu > l.cpu then [Alert(Warning, "cpu")] else [])
    + (if u.pids > l.pids then [Alert(Critical, "pids")] else [])
  }

  /** The two ways to ask agree except about the process limit; a usage that was read never exceeds that one. */
  lemma {:induction false} OverLimitIffViolations(l: Limits, u: Usage)
    ensures OverLimit(l, u) <==> Violations(l, u) != [] || u.pids > l.pids
    ensures forall prev: UInt64, r: Reading, hz: nat | hz > 0 && u == UsageOf(prev, r, hz) ::
              OverLimit(l, u) <==> Violations(l, u) != []
    ensures forall a | a in Violations(l, u) :: a in Alerts(l, u)
  {
  }

  predicate AtMost(u: Usage, v: Usage) {
    u.memory <= v.memory && u.cpu <= v.cpu && u.pids <= v.pids
  }

  /** `b` is about the same resource as `a` and no milder. */
  predicate AsSevere(a: Alert, b: Alert) {
    a.resource == b.resource && (a.level == Critical ==> b.level == Critical)
  }

  /** More usage never silences an alert nor softens it, although a critical memory alert replaces the warning. */
  lemma {:induction false} AlertsMonotone(l: Limits, u: Usage, v: Usage, a: Alert)
    requires AtMost(u, v) && a in Alerts(l, u)
    ensures exists b :: b in Alerts(l, v) && AsSevere(a, b)
  {
    var b := if a.resource == "memory" && 10 * v.memory > 9 * l.memory then Alert(Critical, "memory") else a;
    assert b in Alerts(l, v);
  }

  // ---- the monitor ----

  datatype HistoryEntry = HistoryEntry(usage: Usage, timestamp: nat)

  const WINDOW: nat := 1000

  class ResourceMonitor {
    const hz: nat
    var limits: Limits
    var prevCpuTime: UInt64
    var history: seq<HistoryEntry>
    ghost var recorded: seq<HistoryEntry>

    /** The history is the window over everything recorded. */
    ghost predicate Valid()
      reads this
    {
      hz > 0 && history == LastN(recorded, WINDOW)
    }

    constructor (limits: Limits, hz: nat)
      requires hz > 0
      ensures Valid() && this.limits == limits && this.hz == hz && prevCpuTime == 0 && recorded == []
    {
      this.limits, this.hz := limits, hz;
      prevCpuTime, history, recorded := 0, [], [];
    }

    method ReadUsage(r: Reading) returns (usage: Usage)
      requires hz > 0
      modifies this`prevCpuTime
      ensures usage == UsageOf(old(prevCpuTime), r, hz) && prevCpuTime == NextPrev(old(prevCpuTime), r)
    {
      usage := Usage(r.memory, 0, 0);
      if r.ticks.Some? {
        var totalTime := r.ticks.value;
        var delta := (totalTime - prevCpuTime) % TWO_64;
        prevCpuTime := totalTime;
        usage := usage.(cpu := delta * 100 % TWO_64 / hz % TWO_32);
      }
    }

    /** One round of `monitor_loop`. */
    method MonitorRound(r: Reading, now: nat) returns (alerts: seq<Alert>)
      requires Valid()
      modifies this
      ensures Valid() && limits == old(limits)
      ensures prevCpuTime == NextPrev(old(prevCpuTime), r)
      ensures recorded == old(recorded) + [HistoryEntry(UsageOf(old(prevCpuTime), r, hz), now)]
      ensures alerts == Alerts(limits, UsageOf(old(prevCpuTime), r, hz))
    {
      var usage := ReadUsage(r);
      history := history + [HistoryEntry(usage, now)];
      if |history| > WINDOW {
        history := history[1..];
      }
      LastOfAppend(recorded, WINDOW, HistoryEntry(usage, now), WINDOW);
      recorded := recorded + [HistoryEntry(usage, now)];
      alerts := CheckAlerts(usage);
    }

    method CheckAlerts(usage: Usage) returns (alerts: seq<Alert>)
      ensures Alert(Critical, "memory") in alerts <==> 10 * usage.memory > 9 * limits.memory
      ensures Alert(Warning, "memory") in alerts
          <==> 4 * usage.memory > 3 * limits.memory && 10 * usage.memory <= 9 * limits.memory
      ensures Alert(Warning, "cpu") in alerts <==> usage.cpu > limits.cpu
      ensures Alert(Critical, "pids") in alerts <==> usage.pids > limits.pids
      ensures alerts == Alerts(limits, usage)
    {
      alerts := [];
      if 10 * usage.memory > 9 * limits.memory {
        alerts := alerts + [Alert(Critical, "memory")];
      } else if 4 * usage.memory > 3 * limits.memory {
        alerts := alerts + [Alert(Warning, "memory")];
      }
      ghost var memory := alerts;
      if usage.cpu > limits.cpu {
        alerts := alerts + [Alert(Warning, "cpu")];
      }
      assert alerts == memory + if usage.cpu > limits.cpu then [Alert(Warning, "cpu")] else [];
      if usage.pids > limits.pids {
        alerts := alerts + [Alert(Critical, "pids")];
      }
    }

    method GetHistory(lastN: nat) returns (result: seq<HistoryEntry>)
      requires Valid()
      ensures result == LastN(recorded, if lastN < 1000 then lastN else 1000)
    {
      var start := if |history| > lastN then |history| - lastN else 0;
      result := [];
      for i := start to |history|
        invariant result == history[start..i]
      {
        result := result + [history[i]];
      }
      LastOfLast(recorded, WINDOW, lastN);
    }

    method GetUsage(r: Reading) returns (usage: Usage)
      requires hz > 0
      modifies this`prevCpuTime
      ensures usage == UsageOf(old(prevCpuTime), r, hz) && prevCpuTime == NextPrev(old(prevCpuTime), r)
    {
      usage := ReadUsage(r);
    }

    method IsOverLimit(r: Reading) returns (over: bool)
      requires hz > 0
      modifies this`prevCpuTime
      ensures over == OverLimit(limits, UsageOf(old(prevCpuTime), r, hz))
          && prevCpuTime == NextPrev(old(prevCpuTime), r)
    {
      var usage := ReadUsage(r);
      over := usage.memory > limits.memory || usage.cpu > limits.cpu || usage.pids > limits.pids;
    }

    method GetViolations(r: Reading) returns (violations: seq<Alert>)
      requires hz > 0
      modifies this`prevCpuTime
      ensures Alert(Critical, "memory") in violations <==> r.memory > limits.memory
      ensures Alert(Warning, "cpu") in violations <==> UsageOf(old(prevCpuTime), r, hz).cpu > limits.cpu
      ensures violations == Violations(limits, UsageOf(old(prevCpuTime), r, hz))
          && prevCpuTime == NextPrev(old(prevCpuTime), r)
    {
      violations := [];
      var usage := ReadUsage(r);
      if usage.memory > limits.memory {
        violations := violations + [Alert(Critical, "memory")];
      }
      if usage.cpu > limits.cpu {
        violations := violations + [Alert(Warning, "cpu")];
      }
    }

    method Call(call: MonitorCall) returns (answer: Answer)
      requires Valid()
      modifies this
      ensures Valid() && limits == old(limits) && prevCpuTime == NextPrev(old(prevCpuTime), call.reading)
      ensures answer == AnswerTo(limits, UsageOf(old(prevCpuTime), call.reading, hz), call)
      ensures recorded == old(recorded) + EntryOf(UsageOf(old(prevCpuTime), call.reading, hz), call)
    {
      match call {
        case Round(r, now) =>
          var alerts := MonitorRound(r, now);
          answer := Alerted(alerts);
        case AskUsage(r) =>
          var usage := GetUsage(r);
          answer := Shown(usage);
        case AskOverLimit(r) =>
          var over := IsOverLimit(r);
          answer := Judged(over);
        case AskViolations(r) =>
          var violations := GetViolations(r);
          answer := Listed(violations);
      }
    }

    /** Any script of calls, by the monitor's own thread and by others. */
    method RunCalls(calls: seq<MonitorCall>) returns (answers: seq<Answer>)
      requires Valid()
      modifies this
      ensures Valid() && limits == old(limits)
      ensures answers == Answers(limits, old(prevCpuTime), hz, calls)
      ensures prevCpuTime == LastTotal(old(prevCpuTime), ReadingsOf(calls))
      ensures recorded == old(recorded) + RecordedBy(old(prevCpuTime), hz, calls)
      decreases |calls|
    {
      answers := [];
      if calls != [] {
        ghost var first := EntryOf(UsageOf(prevCpuTime, calls[0].reading, hz), calls[0]);
        ghost var rest := RecordedBy(NextPrev(prevCpuTime, calls[0].reading), hz, calls[1..]);
        var answer := Call(calls[0]);
        answers := RunCalls(calls[1..]);
        answers := [answer] + answers;
        Regroup(old(recorded), first, rest);
        assert ReadingsOf(calls)[1..] == ReadingsOf(calls[1..]);
      }
    }
  }

  // ---- scripts of calls ----

  datatype MonitorCall =
    | Round(reading: Reading, now: nat)
    | AskUsage(reading: Reading)
    | AskOverLimit(reading: Reading)
    | AskViolations(reading: Reading)

  datatype Answer =
    | Alerted(alerts: seq<Alert>)
    | Shown(usage: Usage)
    | Judged(over: bool)
    | Listed(violations: seq<Alert>)

  function ReadingsOf(calls: seq<MonitorCall>): (r: seq<Reading>)
    ensures |r| == |calls| && forall i | 0 <= i < |calls| :: r[i] == calls[i].reading
  {
    if calls == [] then [] else [calls[0].reading] + ReadingsOf(calls[1..])
  }

  function AnswerTo(l: Limits, u: Usage, call: MonitorCall): Answer {
    match call
    case Round(_, _) => Alerted(Alerts(l, u))
    case AskUsage(_) => Shown(u)
    case AskOverLimit(_) => Judged(OverLimit(l, u))
    case AskViolations(_) => Listed(Violations(l, u))
  }

  /** Only the monitor's own rounds are recorded. */
  function EntryOf(u: Usage, call: MonitorCall): seq<HistoryEntry> {
    if call.Round? then [HistoryEntry(u, call.now)] else []
  }

  function Answers(l: Limits, prev: UInt64, hz: nat, calls: seq<MonitorCall>): seq<Answer>
    requires hz > 0
    decreases |calls|
  {
    if calls == [] then []
    else
      [AnswerTo(l, UsageOf(prev, calls[0].reading, hz), calls[0])]
      + Answers(l, NextPrev(prev, calls[0].reading), hz, calls[1..])
  }

  function RecordedBy(prev: UInt64, hz: nat, calls: seq<MonitorCall>): seq<HistoryEntry>
    requires hz > 0
    decreases |calls|
  {
    if calls == [] then []
    else
      EntryOf(UsageOf(prev, calls[0].reading, hz), calls[0])
      + RecordedBy(NextPrev(prev, calls[0].reading), hz, calls[1..])
  }

  function CpuSum(history: seq<HistoryEntry>): nat {
    if history == [] then 0 else history[0].usage.cpu + CpuSum(history[1..])
  }

  /** The percentages handed to callers other than the monitor's own rounds. */
  function Taken(prev: UInt64, hz: nat, calls: seq<MonitorCall>): nat
    requires hz > 0
    decreases |calls|
  {
    if calls == [] then 0
    else
      (if calls[0].Round? then 0 else UsageOf(prev, calls[0].reading, hz).cpu)
          + Taken(NextPrev(prev, calls[0].reading), hz, calls[1..])
  }

  lemma {:induction false} HistoryAndTaken(prev: UInt64, hz: nat, calls: seq<MonitorCall>)
    requires hz > 0
    ensures CpuSum(RecordedBy(prev, hz, calls)) + Taken(prev, hz, calls) == TotalPercent(prev, ReadingsOf(calls), hz)
    decreases |calls|
  {
    if calls != [] {
      var next := NextPrev(prev, calls[0].reading);
      HistoryAndTaken(next, hz, calls[1..]);
      assert ReadingsOf(calls)[1..] == ReadingsOf(calls[1..]);
      var all, rest := RecordedBy(prev, hz, calls), RecordedBy(next, hz, calls[1..]);
      if calls[0].Round? {
        assert all[1..] == rest;
      } else {
        assert all == rest;
      }
    }
  }

  /**
   What the history misses over any script of calls: its percentages, together with those the
   other callers were handed, account for the time consumed. Every question asked in between
   takes its share out of the history.
   */
  lemma {:induction false} HistoryAccounts(prev: UInt64, hz: nat, calls: seq<MonitorCall>)
    requires hz > 0 && NonDecreasing(prev, ReadingsOf(calls))
    requires 100 * (LastTotal(prev, ReadingsOf(calls)) - prev) < TWO_64
    requires 100 * (LastTotal(prev, ReadingsOf(calls)) - prev) < hz * TWO_32
    ensures Accounts(hz, CpuSum(RecordedBy(prev, hz, calls)) + Taken(prev, hz, calls),
                     LastTotal(prev, ReadingsOf(calls)) - prev, Opened(ReadingsOf(calls)))
  {
    HistoryAndTaken(prev, hz, calls);
    PercentAccountsForTime(prev, ReadingsOf(calls), hz);
  }

  // ---- the manager ----

  datatype GlobalStats = GlobalStats(memory: UInt64, cpu: UInt32, pids: UInt32, sandboxes: nat, overLimit: nat)

  /** What one sandbox contributes: the usage of a first read, and the verdict of a second one. */
  datatype Share = Share(usage: Usage, over: bool)

  function ShareOf(l: Limits, prev: UInt64, hz: nat, first: Reading, second: Reading): Share
    requires hz > 0
  {
    Share(UsageOf(prev, first, hz), OverLimit(l, UsageOf(NextPrev(prev, first), second, hz)))
  }

  function Totals(shares: seq<Share>): GlobalStats {
    if shares == [] then GlobalStats(0, 0, 0, 0, 0)
    else Including(Totals(shares[..|shares| - 1]), shares[|shares| - 1])
  }

  function Including(t: GlobalStats, s: Share): GlobalStats {
    GlobalStats((t.memory + s.usage.memory) % TWO_64, (t.cpu + s.usage.cpu) % TWO_32, (t.pids + s.usage.pids) % TWO_32,
                t.sandboxes + 1, t.overLimit + if s.over then 1 else 0)
  }

  function SumOf(shares: seq<Share>, f: Share -> nat): nat {
    if shares == [] then 0 else SumOf(shares[..|shares| - 1], f) + f(shares[|shares| - 1])
  }

  /** The sandboxes judged over their limit. */
  function OverLimitAt(shares: seq<Share>): set<nat> {
    set i: nat | i < |shares| && shares[i].over
  }

  /**
   What the totals are: the number of sandboxes, the number of those judged over their limit, and
   the sums of what they use, each in the width of its field.
   */
  lemma {:induction false} TotalsExactly(shares: seq<Share>)
    ensures var t := Totals(shares);
            && t.sandboxes == |shares|
            && t.overLimit == |OverLimitAt(shares)|
            && t.memory == SumOf(shares, (s: Share) => s.usage.memory) % 0x1_0000_0000_0000_0000
            && t.cpu == SumOf(shares, (s: Share) => s.usage.cpu) % 0x1_0000_0000
            && t.pids == SumOf(shares, (s: Share) => s.usage.pids) % 0x1_0000_0000
  {
    if shares != [] {
      var front, last := shares[..|shares| - 1], |shares| - 1;
      TotalsExactly(front);
      CountsOne(shares);
      AddModulo(SumOf(front, (s: Share) => s.usage.memory), shares[last].usage.memory, TWO_64);
      AddModulo(SumOf(front, (s: Share) => s.usage.cpu), shares[last].usage.cpu, TWO_32);
      AddModulo(SumOf(front, (s: Share) => s.usage.pids), shares[last].usage.pids, TWO_32);
    }
  }

  lemma {:induction false} CountsOne(shares: seq<Share>)
    requires shares != []
    ensures var last := |shares| - 1;
            |OverLimitAt(shares)| == |OverLimitAt(shares[..last])| + if shares[last].over then 1 else 0
  {
    var last := |shares| - 1;
    var before := OverLimitAt(shares[..last]);
    assert OverLimitAt(shares) == before + (if shares[last].over then {last} else {});
    assert last !in before;
  }

  lemma {:induction false} AddModulo(a: nat, b: nat, m: nat)
    requires m > 0
    ensures (a % m + b) % m == (a + b) % m
  {
    var q := a / m;
    assert a == m * q + a % m;
    ModuloMultiple(a % m + b, q, m);
  }

  lemma {:induction false} ModuloMultiple(x: nat, q: nat, m: nat)
    requires m > 0
    ensures (x + m * q) % m == x % m
    decreases q
  {
    if q > 0 {
      ModuloMultiple(x, q - 1, m);
      Distribute(m, q - 1, 1);
      AddOnce(x + m * (q - 1), m);
    }
  }

  lemma {:induction false} AddOnce(x: nat, m: nat)
    requires m > 0
    ensures (x + m) % m == x % m
  {
    var q, r := x / m, x % m;
    assert x + m == m * (q + 1) + r by {
      Distribute(m, q, 1);
    }
    QuotientIs(x + m, m, q + 1, r);
  }

  lemma {:induction false} QuotientIs(x: nat, m: nat, q: nat, r: nat)
    requires m > 0 && x == m * q + r && r < m
    ensures x % m == r
  {
    var p := x / m;
    assert x == m * p + x % m;
    if p < q {
      Scale(m, p + 1, q);
      Distribute(m, p, 1);
    } else if p > q {
      Scale(m, q + 1, p);
      Distribute(m, q, 1);
    }
  }

  lemma {:induction false} TotalsStep(shares: seq<Share>, s: Share)
    ensures Totals(shares + [s]) == Including(Totals(shares), s)
  {
    assert (shares + [s])[..|shares|] == shares;
  }

  /** The loop body: `get_usage`, then `is_over_limit`. */
  method AddMonitor(m: ResourceMonitor, first: Reading, second: Reading, before: GlobalStats)
      returns (stats: GlobalStats, ghost share: Share)
    requires m.hz > 0
    modifies m`prevCpuTime
    ensures share == ShareOf(m.limits, old(m.prevCpuTime), m.hz, first, second)
    ensures m.prevCpuTime == LastTotal(old(m.prevCpuTime), [first, second])
    ensures stats == Including(before, share)
  {
    TwoReads(m.prevCpuTime, first, second);
    stats := before;
    var usage := m.GetUsage(first);
    stats := stats.(memory := (stats.memory + usage.memory) % TWO_64);
    stats := stats.(cpu := (stats.cpu + usage.cpu) % TWO_32);
    stats := stats.(pids := (stats.pids + usage.pids) % TWO_32);
    stats := stats.(sandboxes := stats.sandboxes + 1);
    var over := m.IsOverLimit(second);
    if over {
      stats := stats.(overLimit := stats.overLimit + 1);
    }
    share := Share(usage, over);
  }

  /**
   `get_global_stats` over the monitors in iteration order; `reads[i]` is what the i-th monitor
   finds at its two reads.
   */
  method GetGlobalStats(monitors: seq<ResourceMonitor>, readings: seq<(Reading, Reading)>)
      returns (stats: GlobalStats, ghost shares: seq<Share>)
    requires |readings| == |monitors|
    requires forall i | 0 <= i < |monitors| :: monitors[i].hz > 0
    requires forall i, j | 0 <= i < j < |monitors| :: monitors[i] != monitors[j]
    modifies set i | 0 <= i < |monitors| :: monitors[i]
    ensures stats == Totals(shares) && |shares| == |monitors|
    ensures stats.sandboxes == |monitors| && stats.overLimit == |OverLimitAt(shares)|
    ensures forall i | 0 <= i < |monitors| ::
              && shares[i] == ShareOf(old(monitors[i].limits), old(monitors[i].prevCpuTime), monitors[i].hz,
                  readings[i].0, readings[i].1)
              && monitors[i].prevCpuTime == LastTotal(old(monitors[i].prevCpuTime), [readings[i].0, readings[i].1])
  {
    stats, shares := GlobalStats(0, 0, 0, 0, 0), [];
    for i := 0 to |monitors|
      invariant stats == Totals(shares) && |shares| == i
      invariant forall k | 0 <= k < i ::
                  && shares[k] == ShareOf(old(monitors[k].limits), old(monitors[k].prevCpuTime), monitors[k].hz,
                      readings[k].0, readings[k].1)
                  && monitors[k].prevCpuTime == LastTotal(old(monitors[k].prevCpuTime), [readings[k].0, readings[k].1])
      invariant forall k | 0 <= k < |monitors| :: monitors[k].limits == old(monitors[k].limits)
      invariant forall k | i <= k < |monitors| :: monitors[k].prevCpuTime == old(monitors[k].prevCpuTime)
    {
      ghost var share;
      stats, share := AddMonitor(monitors[i], readings[i].0, readings[i].1, stats);
      TotalsStep(shares, share);
      shares := shares + [share];
    }
    TotalsExactly(shares);
  }

  lemma {:induction false} TwoReads(prev: UInt64, first: Reading, second: Reading)
    ensures LastTotal(prev, [first, second]) == NextPrev(NextPrev(prev, first), second)
  {
    assert [first, second][1..] == [second];
    assert LastTotal(NextPrev(prev, first), [second])
        == LastTotal(NextPrev(NextPrev(prev, first), second), [second][1..]);
  }

  /**
   The verdict comes from the second read, which sees only the CPU time since the first. It
   agrees with the reported usage exactly when memory decides, or when the ticks between the
   two reads exceed the CPU limit on their own just if the reported percentage does.
   */
  lemma {:induction false} SecondReadVerdict(l: Limits, prev: UInt64, hz: nat, memory: UInt64, t1: UInt64, t2: UInt64)
    requires hz > 0 && t1 <= t2 && 100 * (t2 - t1) < TWO_64 && 100 * (t2 - t1) < hz * TWO_32
    ensures var s := ShareOf(l, prev, hz, Reading(memory, Some(t1)), Reading(memory, Some(t2)));
            s.over == OverLimit(l, s.usage) <==>
            memory > l.memory || (s.usage.cpu > l.cpu <==> 100 * (t2 - t1) >= hz * (l.cpu + 1))
  {
    var d := t2 - t1;
    assert Delta(t1, t2) == d;
    PercentExact(d, hz);
    PercentAbove(hz, Percent(d, hz), l.cpu, d);
  }

  lemma {:induction false} PercentAbove(hz: nat, percent: nat, limit: nat, d: nat)
    requires hz > 0 && hz * percent <= 100 * d <= hz * percent + hz - 1
    ensures percent > limit <==> 100 * d >= hz * (limit + 1)
  {
    if percent > limit {
      Scale(hz, limit + 1, percent);
    } else {
      Scale(hz, percent, limit);
      Distribute(hz, limit, 1);
    }
  }

  /** When no tick has passed the second read sees no CPU at all: a CPU excess alone goes unnoticed. */
  lemma {:induction false} NoTickNoCpuVerdict(l: Limits, prev: UInt64, hz: nat, memory: UInt64, t: UInt64)
    requires hz > 0
    ensures var s := ShareOf(l, prev, hz, Reading(memory, Some(t)), Reading(memory, Some(t)));
            s.over == OverLimit(l, s.usage) <==> s.usage.cpu <= l.cpu || memory > l.memory
  {
    SecondReadVerdict(l, prev, hz, memory, t, t);
    Scale(hz, 1, l.cpu + 1);
  }
}
