/** The restart budget over whole runs, and whether it matters which thread reaps. */
module SupervisorRestarts {
  import opened Results
  import opened Supervisor
  import opened SupervisorTrace

  /** How often the events of a trace restarted and started one process. */
  datatype Tally = Tally(restarts: nat, spawns: nat)

  function Count(trace: seq<Event>, name: Name): Tally {
    if trace == [] then Tally(0, 0)
    else Plus(Count(trace[..|trace| - 1], name), trace[|trace| - 1], name)
  }

  function Plus(t: Tally, e: Event, name: Name): Tally {
    if e.EvRestarted? && e.name == name then t.(restarts := t.restarts + 1)
    else if e.EvStarted? && e.name == name then t.(spawns := t.spawns + 1)
    else t
  }

  function Gain(t: Tally, restarts: nat, spawns: nat): Tally {
    Tally(t.restarts + restarts, t.spawns + spawns)
  }

  function Restarts(trace: seq<Event>, name: Name): nat {
    Count(trace, name).restarts
  }

  function Spawns(trace: seq<Event>, name: Name): nat {
    Count(trace, name).spawns
  }

  lemma {:induction false} CountAppend(trace: seq<Event>, e: Event, name: Name)
    ensures Count(trace + [e], name) == Plus(Count(trace, name), e, name)
  {
    assert (trace + [e])[..|trace|] == trace;
  }

  /** The run contains no explicit `start` of `name`. */
  predicate NoStart(run: seq<Action>, name: Name) {
    forall i | 0 <= i < |run| :: !(run[i].Start? && run[i].name == name)
  }

  // ---- the step laws ----

  /** How often `name` was restarted and spawned on the way from `s` to `t`. */
  function Restarted(s: World, t: World, name: Name): int {
    Restarts(t.trace, name) - Restarts(s.trace, name)
  }

  function Spawned(s: World, t: World, name: Name): int {
    Spawns(t.trace, name) - Spawns(s.trace, name)
  }

  lemma {:induction false} SpawnCounts(mode: Mode, s: World, other: Name, fork: Option<int>, name: Name)
    requires other in s.table
    ensures Count(Spawn(mode, s, other, fork).trace, name)
        == Gain(Count(s.trace, name), 0, if other == name && fork.Some? then 1 else 0)
  {
    if fork.Some? {
      CountAppend(s.trace, EvStarted(other, fork.value), name);
    }
  }

  /** Whether this exit of `other` makes `handle_exit` restart `name`. */
  predicate RestartsOn(s: World, other: Name, waitStatus: nat, name: Name)
    requires name in s.table
  {
    var e := s.table[name];
    other == name && ExitStatus(waitStatus) != 0 && e.config.policy != Never && e.restartCount < e.config.maxRestarts
  }

  /** What `handle_exit` of process `other` does to the counts of `name`... */
  lemma {:induction false} HandleExitCounts(
      mode: Mode, s: World, other: Name, waitStatus: nat, fork: Option<int>, name: Name)
    requires other in s.table && name in s.table
    ensures var t := HandleExit(mode, s, other, waitStatus, fork);
            var again := RestartsOn(s, other, waitStatus, name);
            Count(t.trace, name) ==
            Gain(Count(s.trace, name), if again then 1 else 0, if again && fork.Some? then 1 else 0)
  {
    CountAppend(s.trace, ExitEvent(other, s.table[other].pid, ExitStatus(waitStatus)), name);
    RestartCounts(mode, RecordExit(s, other, waitStatus), other, fork, name);
  }

  lemma {:induction false} RestartCounts(mode: Mode, s: World, other: Name, fork: Option<int>, name: Name)
    requires other in s.table
    ensures var t, e := RestartOrNot(mode, s, other, fork), s.table[other];
            var again := other == name && e.exitCode != 0 && e.config.policy != Never
                && e.restartCount < e.config.maxRestarts;
            Count(t.trace, name) ==
            Gain(Count(s.trace, name), if again then 1 else 0, if again && fork.Some? then 1 else 0)
  {
    RespawnCounts(mode, s, other, fork, name);
  }

  lemma {:induction false} RespawnCounts(mode: Mode, s: World, other: Name, fork: Option<int>, name: Name)
    requires other in s.table
    ensures Count(Respawn(mode, s, other, fork).trace, name) ==
            Gain(Count(s.trace, name), if other == name then 1 else 0, if other == name && fork.Some? then 1 else 0)
  {
    CountAppend(s.trace, EvRestarted(other, s.table[other].restartCount + 1), name);
    SpawnCounts(mode, Announced(s, other), other, fork, name);
  }

  /** ...and to its entry and children. */
  lemma {:induction false} HandleExitEntry(
      mode: Mode, s: World, other: Name, waitStatus: nat, fork: Option<int>, name: Name)
    requires other in s.table && name in s.table
    ensures var t := HandleExit(mode, s, other, waitStatus, fork);
            var e, again := s.table[name], RestartsOn(s, other, waitStatus, name);
            && name in t.table && t.table[name].config == e.config
            && t.table[name].restartCount
                == (if !again then e.restartCount else if mode.resetOnRespawn then 0 else e.restartCount + 1)
            && (other != name ==> t.table[name] == e)
            && (other == name ==>
                  && t.table[name].exitCode == ExitStatus(waitStatus)
                  && t.table[name].pid == (if again && fork.Some? then fork.value else e.pid)
                  && t.table[name].status == if again then (if fork.Some? then Running else Failed)
                                             else if ExitStatus(waitStatus) == 0 then Status.Stopped
                                             else if e.config.policy == Never then Status.Stopped
                                             else Failed)
            && t.children == (if RestartsOn(s, other, waitStatus, other) && fork.Some?
                              then s.children[fork.value := Child(other, Alive)] else s.children)
  {
  }

  /** What happens to `name`'s entry and counts between `s` and `t` without an explicit start. */
  ghost predicate CountsStep(mode: Mode, s: World, t: World, name: Name)
    requires name in s.table
  {
    var e := s.table[name];
    && name in t.table && t.table[name].config == e.config
    && 0 <= Restarted(s, t, name) <= 1
    && (e.config.policy == Never || e.config.maxRestarts == 0 ==> Restarted(s, t, name) == 0)
    && (!mode.resetOnRespawn ==> t.table[name].restartCount == e.restartCount + Restarted(s, t, name))
    && (e.restartCount <= e.config.maxRestarts ==> t.table[name].restartCount <= e.config.maxRestarts)
  }

  /** `r` is `s` just after `waitpid`. */
  lemma {:induction false} ReapCounts(
      mode: Mode, s: World, r: World, other: Name, waitStatus: nat, fork: Option<int>, name: Name)
    requires other in s.table && name in s.table
    requires r.trace == s.trace && r.table.Keys == s.table.Keys
        && r.table[name] == s.table[name].(monitor := r.table[name].monitor)
    ensures CountsStep(mode, s, HandleExit(mode, r, other, waitStatus, fork), name)
  {
    HandleExitCounts(mode, r, other, waitStatus, fork, name);
    HandleExitEntry(mode, r, other, waitStatus, fork, name);
  }

  lemma {:induction false} StartCounts(mode: Mode, s: World, other: Name, fork: Option<int>, name: Name)
    requires name in s.table && other != name
    ensures CountsStep(mode, s, StartStep(mode, s, other, fork), name)
  {
    if other in s.table {
      var e := s.table[other];
      var ready := if mode.resetOnRespawn then e else e.(restartCount := 0);
      SpawnCounts(mode, s.(table := s.table[other := ready]), other, fork, name);
    }
  }

  /**
   One step that is not an explicit start of `name`. With the intended reset the budget counter
   counts exactly the restarts; as written it is always back at zero.
   */
  lemma {:induction false} StepCounts(mode: Mode, s: World, a: Action, name: Name)
    requires Enabled(s, a) && name in s.table && !(a.Start? && a.name == name)
    ensures CountsStep(mode, s, Step(mode, s, a), name)
  {
    match a
    case MonitorPoll(other, late, fork) =>
      if LifeOf(s, s.table[other]).Zombie? {
        var w := LifeOf(s, s.table[other]).waitStatus;
        ReapCounts(mode, s, WithMonitor(Reap(s, other), other, Detached), other, w, fork, name);
      }
    case WatchdogCheck(other, fork) =>
      if LifeOf(s, s.table[other]).Zombie? {
        var w := LifeOf(s, s.table[other]).waitStatus;
        ReapCounts(mode, s, Reap(s, other), other, if mode.decodeTwice then ExitStatus(w) else w, fork, name);
      }
    case Start(other, fork) =>
      StartCounts(mode, s, other, fork, name);
    case _ =>
  }

  // ---- the budget ----

  /**
   Without an explicit start, the intended counter advances by exactly the restarts there were:
   they cannot exceed what is left of the budget.
   */
  lemma {:induction false} BudgetConserved(mode: Mode, s: World, run: seq<Action>, name: Name)
    requires !mode.resetOnRespawn && name in s.table && NoStart(run, name) && Exec(mode, s, run).Some?
    requires s.table[name].restartCount <= s.table[name].config.maxRestarts
    ensures var t := Exec(mode, s, run).value;
            && name in t.table && t.table[name].config == s.table[name].config
            && t.table[name].restartCount == s.table[name].restartCount + Restarted(s, t, name)
            && Restarted(s, t, name) <= s.table[name].config.maxRestarts - s.table[name].restartCount
    decreases |run|
  {
    if run != [] {
      StepCounts(mode, s, run[0], name);
      BudgetConserved(mode, Step(mode, s, run[0]), run[1..], name);
    }
  }

  lemma {:induction false} NeverRestarted(mode: Mode, s: World, run: seq<Action>, name: Name)
    requires name in s.table && NoStart(run, name) && Exec(mode, s, run).Some?
    requires s.table[name].config.policy == Never || s.table[name].config.maxRestarts == 0
    ensures Restarted(s, Exec(mode, s, run).value, name) == 0
    decreases |run|
  {
    if run != [] {
      StepCounts(mode, s, run[0], name);
      NeverRestarted(mode, Step(mode, s, run[0]), run[1..], name);
    }
  }

  ghost predicate WithinBudget(s: World) {
    forall n | n in s.table :: s.table[n].restartCount <= s.table[n].config.maxRestarts
  }

  lemma {:induction false} CountsWithinBudget(mode: Mode, s: World, run: seq<Action>)
    requires WithinBudget(s)
    ensures Exec(mode, s, run).Some? ==> WithinBudget(Exec(mode, s, run).value)
    decreases |run|
  {
    if run != [] && Enabled(s, run[0]) {
      var a, t := run[0], Step(mode, s, run[0]);
      forall n | n in t.table
        ensures t.table[n].restartCount <= t.table[n].config.maxRestarts
      {
        if n in s.table && !(a.Start? && a.name == n) {
          StepCounts(mode, s, a, n);
        }
      }
      CountsWithinBudget(mode, t, run[1..]);
    }
  }

  /**
   What `max_restarts` promises: from any reachable state, no run without an explicit start
   restarts a process more often.
   */
  ghost predicate BudgetHolds(mode: Mode, config: Config) {
    forall before: seq<Action>, run: seq<Action>, name: Name ::
      Exec(mode, INIT, before).Some? && Exec(mode, INIT, before + run).Some? && NoStart(run, name) ==>
        var s, t := Exec(mode, INIT, before).value, Exec(mode, INIT, before + run).value;
        name in s.table && s.table[name].config == config ==> Restarted(s, t, name) <= config.maxRestarts
  }

  /** With the reset in `start` only, the promise is kept for every configuration. */
  lemma {:induction false} IntendedBudget(mode: Mode, config: Config)
    requires !mode.resetOnRespawn
    ensures BudgetHolds(mode, config)
  {
    forall before: seq<Action>, run: seq<Action>, name: Name
      | Exec(mode, INIT, before).Some? && Exec(mode, INIT, before + run).Some? && NoStart(run, name)
      ensures var s, t := Exec(mode, INIT, before).value, Exec(mode, INIT, before + run).value;
              name in s.table && s.table[name].config == config ==> Restarted(s, t, name) <= config.maxRestarts
    {
      var s := Exec(mode, INIT, before).value;
      ExecAppend(mode, INIT, before, run);
      if name in s.table {
        CountsWithinBudget(mode, INIT, before);
        BudgetConserved(mode, s, run, name);
      }
    }
  }

  // ---- a child that always crashes ----

  const CRASH: nat := 256   // exited with code 1

  /** `n` rounds of: the child crashes, its monitor wakes, reaps it and restarts it. */
  function CrashLoop(name: Name, pid: int, n: nat): seq<Action>
    decreases n
  {
    if n == 0 then []
    else
      [Exit(pid, CRASH), MonitorWake(name), MonitorPoll(name, false, Some(pid + 1))]
      + CrashLoop(name, pid + 1, n - 1)
  }

  /** `name` runs as child `pid`, watched, and all later pids are free. */
  ghost predicate RunsAs(s: World, name: Name, pid: int) {
    && pid > 0 && name in s.table && pid in s.children && s.children[pid].life == Alive
    && s.table[name].pid == pid && s.table[name].status == Running
    && s.table[name].running && s.table[name].monitor == Waiting
    && forall p | p in s.children :: p <= pid
  }

  /** The state in which the monitor is about to reap the crashed child. */
  function Crashed(s: World, name: Name, pid: int): World
    requires name in s.table && pid in s.children
  {
    s.(table := s.table[name := s.table[name].(monitor := Polling)],
       children := s.children[pid := s.children[pid].(life := Zombie(CRASH))])
  }

  lemma {:induction false} OneCrash(mode: Mode, s: World, name: Name, pid: int, fork: Option<int>)
    requires RunsAs(s, name, pid) && ForkPossible(s, fork)
    ensures var r := Exec(mode, s, [Exit(pid, CRASH), MonitorWake(name), MonitorPoll(name, false, fork)]);
            r == Some(MonitorReap(mode, Crashed(s, name, pid), name, CRASH, fork))
  {
    var run := [Exit(pid, CRASH), MonitorWake(name), MonitorPoll(name, false, fork)];
    var s1 := Step(mode, s, run[0]);
    var s2 := Step(mode, s1, run[1]);
    assert run[1..][0] == MonitorWake(name) && run[1..][1..][0] == MonitorPoll(name, false, fork);
    assert Exec(mode, s2, run[1..][1..]) == Exec(mode, Step(mode, s2, run[2]), run[1..][1..][1..]);
  }

  lemma {:induction false} RoundThenLoop(mode: Mode, s: World, t: World, name: Name, pid: int, n: nat)
    requires Exec(mode, s, [Exit(pid, CRASH), MonitorWake(name), MonitorPoll(name, false, Some(pid + 1))]) == Some(t)
    ensures Exec(mode, s, CrashLoop(name, pid, n + 1)) == Exec(mode, t, CrashLoop(name, pid + 1, n))
  {
    ExecAppend(mode, s, [Exit(pid, CRASH), MonitorWake(name), MonitorPoll(name, false, Some(pid + 1))],
        CrashLoop(name, pid + 1, n));
  }

  /** From `s` to `t` the process was restarted and spawned `n` times, and the counter shows it if nothing resets it. */
  ghost predicate Rounds(mode: Mode, s: World, t: World, name: Name, n: nat) {
    && name in s.table && name in t.table && t.table[name].config == s.table[name].config
    && (if mode.resetOnRespawn then n > 0 ==> t.table[name].restartCount == 0
        else t.table[name].restartCount == s.table[name].restartCount + n)
    && (n == 0 ==> t.table[name].restartCount == s.table[name].restartCount)
    && Restarted(s, t, name) == n && Spawned(s, t, name) == n
  }

  lemma {:induction false} RoundsAdd(mode: Mode, s: World, t: World, u: World, name: Name, n: nat)
    requires Rounds(mode, s, t, name, 1) && Rounds(mode, t, u, name, n)
    ensures Rounds(mode, s, u, name, n + 1)
  {
  }

  lemma {:induction false} OneRestart(mode: Mode, s: World, name: Name, pid: int) returns (t: World)
    requires RunsAs(s, name, pid) && s.table[name].config.policy != Never
    requires s.table[name].restartCount < s.table[name].config.maxRestarts
    ensures Exec(mode, s, [Exit(pid, CRASH), MonitorWake(name), MonitorPoll(name, false, Some(pid + 1))]) == Some(t)
    ensures RunsAs(t, name, pid + 1) && Rounds(mode, s, t, name, 1)
  {
    t := MonitorReap(mode, Crashed(s, name, pid), name, CRASH, Some(pid + 1));
    OneCrash(mode, s, name, pid, Some(pid + 1));
    ReapRestarts(mode, Crashed(s, name, pid), name, pid);
  }

  lemma {:induction false} ReapRestarts(mode: Mode, m: World, name: Name, pid: int)
    requires pid > 0 && name in m.table && m.table[name].pid == pid && pid in m.children
    requires m.table[name].config.policy != Never && m.table[name].restartCount < m.table[name].config.maxRestarts
    requires forall p | p in m.children :: p <= pid
    ensures var t := MonitorReap(mode, m, name, CRASH, Some(pid + 1));
            && RunsAs(t, name, pid + 1) && t.table[name].config == m.table[name].config
            && t.table[name].restartCount == (if mode.resetOnRespawn then 0 else m.table[name].restartCount + 1)
            && Count(t.trace, name) == Gain(Count(m.trace, name), 1, 1)
  {
    var r := WithMonitor(Reap(m, name), name, Detached);
    HandleExitCounts(mode, r, name, CRASH, Some(pid + 1), name);
    HandleExitEntry(mode, r, name, CRASH, Some(pid + 1), name);
    assert MonitorReap(mode, m, name, CRASH, Some(pid + 1)).children == r.children[pid + 1 := Child(name, Alive)];
  }

  /** The crash loop runs for `n` rounds: always as written, and as long as the budget lasts as intended. */
  lemma {:induction false} CrashLoopRuns(mode: Mode, s: World, name: Name, pid: int, n: nat) returns (u: World)
    requires RunsAs(s, name, pid) && s.table[name].config.policy != Never
    requires if mode.resetOnRespawn then s.table[name].restartCount < s.table[name].config.maxRestarts
             else s.table[name].restartCount + n <= s.table[name].config.maxRestarts
    ensures Exec(mode, s, CrashLoop(name, pid, n)) == Some(u)
    ensures RunsAs(u, name, pid + n) && Rounds(mode, s, u, name, n)
    decreases n
  {
    if n == 0 {
      u := s;
    } else {
      var t := OneRestart(mode, s, name, pid);
      u := CrashLoopRuns(mode, t, name, pid + 1, n - 1);
      RoundsAdd(mode, s, t, u, name, n - 1);
      RoundThenLoop(mode, s, t, name, pid, n - 1);
    }
  }

  lemma {:induction false} CrashLoopHasNoStart(name: Name, pid: int, n: nat)
    ensures NoStart(CrashLoop(name, pid, n), name)
    decreases n
  {
    if n > 0 {
      CrashLoopHasNoStart(name, pid + 1, n - 1);
    }
  }

  /** Adding and starting a process. */
  function Launch(name: Name, config: Config): seq<Action> {
    [Add(name, config), Start(name, Some(1))]
  }

  lemma {:induction false} LaunchRuns(mode: Mode, name: Name, config: Config)
    ensures var r := Exec(mode, INIT, Launch(name, config));
            && r.Some? && RunsAs(r.value, name, 1)
            && r.value.table[name].config == config && r.value.table[name].restartCount == 0
            && Spawns(r.value.trace, name) == 1
  {
    var run := Launch(name, config);
    var s1 := Step(mode, INIT, run[0]);
    assert run[1..][0] == Start(name, Some(1));
    var s2 := Step(mode, s1, run[1]);
    assert Exec(mode, s2, run[1..][1..]) == Some(s2);
    CountAppend([], EvStarted(name, 1), name);
    assert [] + [EvStarted(name, 1)] == s2.trace;
  }

  /** As written, a configuration that allows one restart allows any number: the run with `n` of them. */
  lemma {:induction false} AsWrittenRestartsForever(name: Name, config: Config, n: nat)
    requires config.policy != Never && config.maxRestarts > 0
    ensures var before, run := Launch(name, config), CrashLoop(name, 1, n);
            && Exec(AS_WRITTEN, INIT, before).Some? && Exec(AS_WRITTEN, INIT, before + run).Some? && NoStart(run, name)
            && name in Exec(AS_WRITTEN, INIT, before).value.table
            && Exec(AS_WRITTEN, INIT, before).value.table[name].config == config
            && Restarted(Exec(AS_WRITTEN, INIT, before).value, Exec(AS_WRITTEN, INIT, before + run).value, name) == n
  {
    LaunchRuns(AS_WRITTEN, name, config);
    var s := Exec(AS_WRITTEN, INIT, Launch(name, config)).value;
    var t := CrashLoopRuns(AS_WRITTEN, s, name, 1, n);
    ExecAppend(AS_WRITTEN, INIT, Launch(name, config), CrashLoop(name, 1, n));
    CrashLoopHasNoStart(name, 1, n);
  }

  /** Exactly when the code as written keeps the promise: when it never restarts at all. */
  lemma {:induction false} AsWrittenBudget(config: Config)
    ensures BudgetHolds(AS_WRITTEN, config) <==> config.policy == Never || config.maxRestarts == 0
  {
    if config.policy == Never || config.maxRestarts == 0 {
      forall before: seq<Action>, run: seq<Action>, name: Name
        | Exec(AS_WRITTEN, INIT, before).Some? && Exec(AS_WRITTEN, INIT, before + run).Some? && NoStart(run, name)
        ensures var s, t := Exec(AS_WRITTEN, INIT, before).value, Exec(AS_WRITTEN, INIT, before + run).value;
                name in s.table && s.table[name].config == config ==> Restarted(s, t, name) <= config.maxRestarts
      {
        var s := Exec(AS_WRITTEN, INIT, before).value;
        ExecAppend(AS_WRITTEN, INIT, before, run);
        if name in s.table && s.table[name].config == config {
          NeverRestarted(AS_WRITTEN, s, run, name);
        }
      }
    } else {
      AsWrittenRestartsForever("p", config, config.maxRestarts + 1);
      var before, run := Launch("p", config), CrashLoop("p", 1, config.maxRestarts + 1);
      assert Exec(AS_WRITTEN, INIT, before + run).Some? && NoStart(run, "p");
    }
  }

  /**
   A step in which process `name` may only crash and be restarted: its children exit with failures,
   its forks succeed, nobody stops it. Other processes do as they please.
   */
  predicate CrashesOnly(s: World, a: Action, name: Name)
    requires Enabled(s, a)
  {
    match a
    case Start(n, _) => n != name
    case StopEnd(n) => n != name
    case Exit(pid, w) => s.children[pid].parent == name ==> ExitStatus(w) != 0
    case MonitorPoll(n, _, fork) => n == name ==> fork.Some?
    case WatchdogCheck(n, fork) => n == name ==> fork.Some?
    case _ => true
  }

  /** A possible run of such steps. */
  predicate OnlyCrashes(mode: Mode, s: World, run: seq<Action>, name: Name)
    decreases |run|
  {
    run == [] || (Enabled(s, run[0]) && CrashesOnly(s, run[0], name)
        && OnlyCrashes(mode, Step(mode, s, run[0]), run[1..], name))
  }

  /** Running or given up, with one spawn per restart, and given up only when the budget is spent. */
  ghost predicate Persistent(start: World, s: World, name: Name, config: Config) {
    && name in s.table && s.table[name].config == config && config.policy != Never
    && Spawned(start, s, name) == s.table[name].restartCount
    && s.table[name].restartCount <= config.maxRestarts
    && (s.table[name].status == Running
        || (s.table[name].status == Failed && s.table[name].restartCount == config.maxRestarts))
    && forall p | p in s.children && s.children[p].parent == name && s.children[p].life.Zombie? ::
         ExitStatus(s.children[p].life.waitStatus) != 0
  }

  /** `r` is `s` just after `waitpid`. */
  lemma {:induction false} ReapPersistent(
      start: World, s: World, r: World, other: Name, waitStatus: nat, fork: Option<int>, name: Name, config: Config)
    requires Persistent(start, s, name, config) && other in s.table && ForkPossible(s, fork)
    requires other == name ==> fork.Some? && ExitStatus(waitStatus) != 0
    requires r.trace == s.trace && r.table.Keys == s.table.Keys
        && r.table[name] == s.table[name].(monitor := r.table[name].monitor)
    requires s.table[other].pid in s.children && r.children == Reap(s, other).children
    ensures Persistent(start, HandleExit(INTENDED, r, other, waitStatus, fork), name, config)
  {
    HandleExitCounts(INTENDED, r, other, waitStatus, fork, name);
    HandleExitEntry(INTENDED, r, other, waitStatus, fork, name);
  }

  lemma {:induction false} StartPersistent(
      start: World, s: World, other: Name, fork: Option<int>, name: Name, config: Config)
    requires Persistent(start, s, name, config) && other != name
    ensures Persistent(start, StartStep(INTENDED, s, other, fork), name, config)
  {
    if other in s.table {
      SpawnCounts(INTENDED, s.(table := s.table[other := s.table[other].(restartCount := 0)]), other, fork, name);
    }
  }

  lemma {:induction false} PollPersistent(
      start: World, s: World, other: Name, fork: Option<int>, name: Name, config: Config)
    requires Linked(s) && Persistent(start, s, name, config) && other in s.table && ForkPossible(s, fork)
    requires LifeOf(s, s.table[other]).Zombie? && (other == name ==> fork.Some?)
    ensures Persistent(start, MonitorReap(INTENDED, s, other, LifeOf(s, s.table[other]).waitStatus, fork), name, config)
  {
    ReapPersistent(start, s, WithMonitor(Reap(s, other), other, Detached), other,
        LifeOf(s, s.table[other]).waitStatus, fork, name, config);
  }

  lemma {:induction false} CheckPersistent(
      start: World, s: World, other: Name, fork: Option<int>, name: Name, config: Config)
    requires Linked(s) && Persistent(start, s, name, config) && other in s.table && ForkPossible(s, fork)
    requires LifeOf(s, s.table[other]).Zombie? && (other == name ==> fork.Some?)
    ensures Persistent(start, WatchdogReap(INTENDED, s, other, LifeOf(s, s.table[other]).waitStatus, fork), name,
        config)
  {
    ReapPersistent(start, s, Reap(s, other), other, LifeOf(s, s.table[other]).waitStatus, fork, name, config);
  }

  lemma {:induction false} StepPersistent(start: World, s: World, a: Action, name: Name, config: Config)
    requires Linked(s) && Persistent(start, s, name, config) && Enabled(s, a) && CrashesOnly(s, a, name)
    ensures Persistent(start, Step(INTENDED, s, a), name, config)
  {
    match a
    case MonitorPoll(other, late, fork) =>
      if LifeOf(s, s.table[other]).Zombie? {
        PollPersistent(start, s, other, fork, name, config);
      }
    case WatchdogCheck(other, fork) =>
      if LifeOf(s, s.table[other]).Zombie? {
        CheckPersistent(start, s, other, fork, name, config);
      }
    case Start(other, fork) =>
      StartPersistent(start, s, other, fork, name, config);
    case _ =>
  }

  lemma {:induction false} RunPersistent(start: World, s: World, run: seq<Action>, name: Name, config: Config)
    requires Linked(s) && Persistent(start, s, name, config) && OnlyCrashes(INTENDED, s, run, name)
    ensures Exec(INTENDED, s, run).Some? && Persistent(start, Exec(INTENDED, s, run).value, name, config)
    decreases |run|
  {
    if run != [] {
      StepPersistent(start, s, run[0], name, config);
      StepLinked(INTENDED, s, run[0]);
      RunPersistent(start, Step(INTENDED, s, run[0]), run[1..], name, config);
    }
  }

  /**
   As intended, a process that always crashes is spawned at most max_restarts + 1 times in all,
   in every interleaving with the watchdog and with other processes, whatever those do; it is
   given up only after exactly that many spawns.
   */
  lemma {:induction false} AlwaysCrashing(name: Name, config: Config, run: seq<Action>)
    requires config.policy != Never && Exec(INTENDED, INIT, Launch(name, config)).Some?
    requires OnlyCrashes(INTENDED, Exec(INTENDED, INIT, Launch(name, config)).value, run, name)
    ensures var r := Exec(INTENDED, INIT, Launch(name, config) + run);
            && r.Some? && name in r.value.table && Spawns(r.value.trace, name) <= config.maxRestarts + 1
            && r.value.table[name].status in {Running, Failed}
            && (r.value.table[name].status == Failed ==> Spawns(r.value.trace, name) == config.maxRestarts + 1)
  {
    LaunchRuns(INTENDED, name, config);
    var s := Exec(INTENDED, INIT, Launch(name, config)).value;
    ExecAppend(INTENDED, INIT, Launch(name, config), run);
    assert s.children.Keys == {1} by { LaunchChildren(name, config); }
    RunLinked(INTENDED, INIT, Launch(name, config));
    RunPersistent(s, s, run, name, config);
  }

  lemma {:induction false} LaunchChildren(name: Name, config: Config)
    ensures Exec(INTENDED, INIT, Launch(name, config)).Some?
    ensures Exec(INTENDED, INIT, Launch(name, config)).value.children.Keys == {1}
  {
    var run := Launch(name, config);
    var s1 := Step(INTENDED, INIT, run[0]);
    assert run[1..][0] == Start(name, Some(1));
    assert Exec(INTENDED, Step(INTENDED, s1, run[1]), run[1..][1..]) == Some(Step(INTENDED, s1, run[1]));
  }

  /** The crash that finds the budget spent. */
  lemma {:induction false} LastReap(t: World, name: Name, pid: int)
    requires RunsAs(t, name, pid) && t.table[name].config.policy != Never
    requires t.table[name].restartCount == t.table[name].config.maxRestarts
    ensures var u := MonitorReap(INTENDED, Crashed(t, name, pid), name, CRASH, None);
            name in u.table && u.table[name].status == Failed && Spawns(u.trace, name) == Spawns(t.trace, name)
  {
    var r := WithMonitor(Reap(Crashed(t, name, pid), name), name, Detached);
    HandleExitCounts(INTENDED, r, name, CRASH, None, name);
    HandleExitEntry(INTENDED, r, name, CRASH, None, name);
  }

  /**
   And it does get there: the run in which every round is reaped by the monitor ends FAILED after
   max_restarts + 1 spawns.
   */
  lemma {:induction false} AlwaysCrashingEndsFailed(name: Name, config: Config)
    requires config.policy != Never
    ensures var n := config.maxRestarts;
            var last := [Exit(n + 1, CRASH), MonitorWake(name), MonitorPoll(name, false, None)];
            var r := Exec(INTENDED, INIT, Launch(name, config) + (CrashLoop(name, 1, n) + last));
            r.Some? && name in r.value.table && r.value.table[name].status == Failed
            && Spawns(r.value.trace, name) == n + 1
  {
    var n := config.maxRestarts;
    var last := [Exit(n + 1, CRASH), MonitorWake(name), MonitorPoll(name, false, None)];
    LaunchRuns(INTENDED, name, config);
    var s := Exec(INTENDED, INIT, Launch(name, config)).value;
    var t := CrashLoopRuns(INTENDED, s, name, 1, n);
    OneCrash(INTENDED, t, name, n + 1, None);
    LastReap(t, name, n + 1);
    ExecAppend(INTENDED, INIT, Launch(name, config), CrashLoop(name, 1, n) + last);
    ExecAppend(INTENDED, s, CrashLoop(name, 1, n), last);
  }

  // ---- which thread reaps ----

  /** Equal except for where the monitor thread of `name` is. */
  predicate SameButMonitor(s: World, t: World, name: Name) {
    && name in s.table && name in t.table
    && t == s.(table := s.table[name := s.table[name].(monitor := t.table[name].monitor)])
  }

  /**
   Monitor and watchdog reach the same verdict, make the same restart decision and leave the
   same state exactly when the status is decoded once, or the child exited with code 0.
   */
  lemma {:induction false} ReaperAgreement(mode: Mode, s: World, name: Name, waitStatus: nat, fork: Option<int>)
    requires name in s.table && s.table[name].pid in s.children
        && s.children[s.table[name].pid].life == Zombie(waitStatus)
    requires waitStatus < 0x1_0000
    ensures SameButMonitor(MonitorReap(mode, s, name, waitStatus, fork),
        WatchdogReap(mode, s, name, waitStatus, fork), name)
       <==> !mode.decodeTwice || ExitStatus(waitStatus) == 0
  {
    var a, b := MonitorReap(mode, s, name, waitStatus, fork), WatchdogReap(mode, s, name, waitStatus, fork);
    var ra, rb := WithMonitor(Reap(s, name), name, Detached), Reap(s, name);
    if mode.decodeTwice && ExitStatus(waitStatus) != 0 {
      ExitRecorded(mode, ra, name, waitStatus, fork);
      ExitRecorded(mode, rb, name, ExitStatus(waitStatus), fork);
      assert a.table[name].exitCode != b.table[name].exitCode;
    } else {
      assert ExitStatus(ExitStatus(waitStatus)) == 0;
      var wb := if mode.decodeTwice then ExitStatus(waitStatus) else waitStatus;
      var qa, qb := RecordExit(ra, name, waitStatus), RecordExit(rb, name, wb);
      assert SameButMonitor(qa, qb, name);
      SameRestart(mode, qa, qb, name, fork);
    }
  }

  lemma {:induction false} ExitRecorded(mode: Mode, s: World, name: Name, waitStatus: nat, fork: Option<int>)
    requires name in s.table
    ensures name in HandleExit(mode, s, name, waitStatus, fork).table
    ensures HandleExit(mode, s, name, waitStatus, fork).table[name].exitCode == ExitStatus(waitStatus)
  {
  }

  lemma {:induction false} SameRestart(mode: Mode, s: World, t: World, name: Name, fork: Option<int>)
    requires SameButMonitor(s, t, name)
    ensures SameButMonitor(RestartOrNot(mode, s, name, fork), RestartOrNot(mode, t, name, fork), name)
  {
    var a, b := RestartOrNot(mode, s, name, fork), RestartOrNot(mode, t, name, fork);
    assert b.table == a.table[name := a.table[name].(monitor := b.table[name].monitor)];
  }

  /** `name`'s child, if it had one, has been reaped. */
  ghost predicate Quiet(s: World, name: Name) {
    name in s.table && LifeOf(s, s.table[name]) == Reaped
  }

  /** A reaped process stays as it is until somebody starts it. */
  lemma {:induction false} QuietUntilStarted(mode: Mode, s: World, run: seq<Action>, name: Name)
    requires Linked(s) && Quiet(s, name) && NoStart(run, name) && Exec(mode, s, run).Some?
    ensures var t := Exec(mode, s, run).value; Restarted(s, t, name) == 0 && Spawned(s, t, name) == 0
    decreases |run|
  {
    if run != [] {
      var a, t := run[0], Step(mode, s, run[0]);
      StepLinked(mode, s, a);
      StepQuiet(mode, s, a, name);
      QuietUntilStarted(mode, t, run[1..], name);
    }
  }

  /** `r` is `s` just after another process's child was reaped. */
  lemma {:induction false} ReapQuiet(
      mode: Mode, s: World, r: World, other: Name, waitStatus: nat, fork: Option<int>, name: Name)
    requires Linked(s) && Quiet(s, name) && other in s.table && other != name && ForkPossible(s, fork)
    requires r.trace == s.trace && r.table.Keys == s.table.Keys && r.table[name] == s.table[name]
    requires s.table[other].pid in s.children && r.children == Reap(s, other).children
    ensures var t := HandleExit(mode, r, other, waitStatus, fork);
            Quiet(t, name) && Count(t.trace, name) == Count(s.trace, name)
  {
    HandleExitCounts(mode, r, other, waitStatus, fork, name);
    HandleExitEntry(mode, r, other, waitStatus, fork, name);
  }

  lemma {:induction false} StepQuiet(mode: Mode, s: World, a: Action, name: Name)
    requires Linked(s) && Quiet(s, name) && Enabled(s, a) && !(a.Start? && a.name == name)
    ensures var t := Step(mode, s, a); Quiet(t, name) && Count(t.trace, name) == Count(s.trace, name)
  {
    match a
    case MonitorPoll(other, late, fork) =>
      if LifeOf(s, s.table[other]).Zombie? {
        ReapQuiet(mode, s, WithMonitor(Reap(s, other), other, Detached), other, LifeOf(s, s.table[other]).waitStatus,
            fork, name);
      }
    case WatchdogCheck(other, fork) =>
      if LifeOf(s, s.table[other]).Zombie? {
        var w := LifeOf(s, s.table[other]).waitStatus;
        ReapQuiet(mode, s, Reap(s, other), other, if mode.decodeTwice then ExitStatus(w) else w, fork, name);
      }
    case Start(other, fork) =>
      if other in s.table {
        var e := s.table[other];
        var ready := if mode.resetOnRespawn then e else e.(restartCount := 0);
        SpawnCounts(mode, s.(table := s.table[other := ready]), other, fork, name);
      }
    case _ =>
  }

  /**
   As written, the watchdog takes every death for a success: whatever the wait status, it
   reports a normal stop and nothing restarts the process until an explicit start.
   */
  lemma {:induction false} WatchdogNeverRestarts(before: seq<Action>, name: Name, fork: Option<int>, after: seq<Action>)
    requires Exec(AS_WRITTEN, INIT, before).Some?
    requires var s := Exec(AS_WRITTEN, INIT, before).value;
             && Enabled(s, WatchdogCheck(name, fork))
             && s.table[name].status == Running && LifeOf(s, s.table[name]).Zombie?
             && LifeOf(s, s.table[name]).waitStatus < 0x1_0000
    requires NoStart(after, name)
    requires Exec(AS_WRITTEN, INIT, before + ([WatchdogCheck(name, fork)] + after)).Some?
    ensures var s := Exec(AS_WRITTEN, INIT, before).value;
            var w := Step(AS_WRITTEN, s, WatchdogCheck(name, fork));
            var t := Exec(AS_WRITTEN, INIT, before + ([WatchdogCheck(name, fork)] + after)).value;
            && w.trace == s.trace + [EvStopped(name, s.table[name].pid)]
            && w.table[name].status == Status.Stopped && w.table[name].exitCode == 0
            && Restarted(s, t, name) == 0 && Spawned(s, t, name) == 0
  {
    var s, check := Exec(AS_WRITTEN, INIT, before).value, WatchdogCheck(name, fork);
    var t := Step(AS_WRITTEN, s, check);
    RunLinked(AS_WRITTEN, INIT, before);
    StepLinked(AS_WRITTEN, s, check);
    WatchdogReportsStop(s, name, fork);
    ExecAppend(AS_WRITTEN, INIT, before, [check] + after);
    assert ([check] + after)[1..] == after;
    QuietUntilStarted(AS_WRITTEN, t, after, name);
  }

  lemma {:induction false} WatchdogReportsStop(s: World, name: Name, fork: Option<int>)
    requires Linked(s) && Enabled(s, WatchdogCheck(name, fork))
    requires s.table[name].status == Running && LifeOf(s, s.table[name]).Zombie?
    requires LifeOf(s, s.table[name]).waitStatus < 0x1_0000
    ensures var w := Step(AS_WRITTEN, s, WatchdogCheck(name, fork));
            && w.trace == s.trace + [EvStopped(name, s.table[name].pid)]
            && name in w.table && w.table[name].status == Status.Stopped && w.table[name].exitCode == 0
            && Restarted(s, w, name) == 0 && Spawned(s, w, name) == 0 && Quiet(w, name)
  {
    var pid, w := s.table[name].pid, LifeOf(s, s.table[name]).waitStatus;
    assert ExitStatus(ExitStatus(w)) == 0;
    assert pid in s.children && EvStarted(name, pid) in s.trace;
    HandleExitCounts(AS_WRITTEN, Reap(s, name), name, ExitStatus(w), fork, name);
    HandleExitEntry(AS_WRITTEN, Reap(s, name), name, ExitStatus(w), fork, name);
  }

  /** Such a run exists: a child exits with code 1, the watchdog is first to see it, and reports a normal stop. */
  lemma {:induction false} WatchdogHidesCrash(name: Name, config: Config)
    ensures var r := Exec(AS_WRITTEN, INIT, Launch(name, config) + [Exit(1, CRASH), WatchdogCheck(name, Some(2))]);
            && r.Some? && r.value.trace == [EvStarted(name, 1), EvStopped(name, 1)]
            && name in r.value.table && r.value.table[name].status == Status.Stopped
            && r.value.table[name].exitCode == 0
  {
    var run := Launch(name, config) + [Exit(1, CRASH), WatchdogCheck(name, Some(2))];
    assert run == [Add(name, config), Start(name, Some(1)), Exit(1, CRASH), WatchdogCheck(name, Some(2))];
    var s1 := Step(AS_WRITTEN, INIT, run[0]);
    var s2 := Step(AS_WRITTEN, s1, run[1]);
    var s3 := Step(AS_WRITTEN, s2, run[2]);
    Unroll(AS_WRITTEN, INIT, run);
    Unroll(AS_WRITTEN, s1, run[1..]);
    Unroll(AS_WRITTEN, s2, run[1..][1..]);
    Unroll(AS_WRITTEN, s3, run[1..][1..][1..]);
    assert ExitStatus(ExitStatus(CRASH)) == 0;
  }
}
