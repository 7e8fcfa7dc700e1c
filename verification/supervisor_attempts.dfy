/** The attempt numbers announced with restarts, and what an explicit start does to the budget. */
module SupervisorAttempts {
  import opened Results
  import opened Supervisor
  import opened SupervisorTrace
  import opened SupervisorRestarts

  /** The attempt number of `name`'s latest RESTARTED event, 0 if there is none. */
  function LastAttempt(trace: seq<Event>, name: Name): nat {
    if trace == [] then 0
    else
      var e := trace[|trace| - 1];
      if e.EvRestarted? && e.name == name then e.attempt else LastAttempt(trace[..|trace| - 1], name)
  }

  lemma {:induction false} AttemptAppend(trace: seq<Event>, e: Event, name: Name)
    ensures LastAttempt(trace + [e], name)
            == if e.EvRestarted? && e.name == name then e.attempt else LastAttempt(trace, name)
  {
    assert (trace + [e])[..|trace|] == trace;
  }

  lemma {:induction false} SpawnAttempt(mode: Mode, s: World, other: Name, fork: Option<int>, name: Name)
    requires other in s.table
    ensures LastAttempt(Spawn(mode, s, other, fork).trace, name) == LastAttempt(s.trace, name)
  {
    if fork.Some? {
      AttemptAppend(s.trace, EvStarted(other, fork.value), name);
    }
  }

  lemma {:induction false} RespawnAttempt(mode: Mode, s: World, other: Name, fork: Option<int>, name: Name)
    requires other in s.table
    ensures LastAttempt(Respawn(mode, s, other, fork).trace, name)
            == if other == name then s.table[other].restartCount + 1 else LastAttempt(s.trace, name)
  {
    AttemptAppend(s.trace, EvRestarted(other, s.table[other].restartCount + 1), name);
    SpawnAttempt(mode, Announced(s, other), other, fork, name);
  }

  lemma {:induction false} HandleExitAttempt(
      mode: Mode, s: World, other: Name, waitStatus: nat, fork: Option<int>, name: Name)
    requires other in s.table && name in s.table
    ensures LastAttempt(HandleExit(mode, s, other, waitStatus, fork).trace, name)
            == if RestartsOn(s, other, waitStatus, name) then s.table[name].restartCount + 1
               else LastAttempt(s.trace, name)
  {
    AttemptAppend(s.trace, ExitEvent(other, s.table[other].pid, ExitStatus(waitStatus)), name);
    RespawnAttempt(mode, RecordExit(s, other, waitStatus), other, fork, name);
  }

  /** What one step announces: a restart carries the number after the counter's. */
  ghost predicate AnnouncesNext(s: World, t: World, name: Name)
    requires name in s.table
  {
    && 0 <= Restarted(s, t, name) <= 1
    && LastAttempt(t.trace, name)
       == if Restarted(s, t, name) == 1 then s.table[name].restartCount + 1 else LastAttempt(s.trace, name)
  }

  /** `r` is `s` just after `waitpid`. */
  lemma {:induction false} ReapAnnounces(
      mode: Mode, s: World, r: World, other: Name, waitStatus: nat, fork: Option<int>, name: Name)
    requires other in s.table && name in s.table && r.trace == s.trace && r.table.Keys == s.table.Keys
    requires r.table[name].restartCount == s.table[name].restartCount
    ensures AnnouncesNext(s, HandleExit(mode, r, other, waitStatus, fork), name)
  {
    HandleExitCounts(mode, r, other, waitStatus, fork, name);
    HandleExitAttempt(mode, r, other, waitStatus, fork, name);
  }

  lemma {:induction false} StartAnnounces(mode: Mode, s: World, other: Name, fork: Option<int>, name: Name)
    requires name in s.table
    ensures AnnouncesNext(s, StartStep(mode, s, other, fork), name)
  {
    if other in s.table && s.table[other].status != Running {
      var e := s.table[other];
      var ready := if mode.resetOnRespawn then e else e.(restartCount := 0);
      SpawnCounts(mode, s.(table := s.table[other := ready]), other, fork, name);
      SpawnAttempt(mode, s.(table := s.table[other := ready]), other, fork, name);
    }
  }

  lemma {:induction false} StepAnnounces(mode: Mode, s: World, a: Action, name: Name)
    requires Enabled(s, a) && name in s.table
    ensures AnnouncesNext(s, Step(mode, s, a), name)
  {
    match a
    case MonitorPoll(other, late, fork) =>
      if LifeOf(s, s.table[other]).Zombie? {
        var w := LifeOf(s, s.table[other]).waitStatus;
        ReapAnnounces(mode, s, WithMonitor(Reap(s, other), other, Detached), other, w, fork, name);
      }
    case WatchdogCheck(other, fork) =>
      if Reaps(s, a).Some? {
        var w := LifeOf(s, s.table[other]).waitStatus;
        ReapAnnounces(mode, s, Reap(s, other), other, if mode.decodeTwice then ExitStatus(w) else w, fork, name);
      }
    case Start(other, fork) => StartAnnounces(mode, s, other, fork, name);
    case _ =>
  }

  // ---- as intended ----

  /**
   With the reset in `start` only, attempts are numbered consecutively: after any run without an
   explicit start the latest number is the counter's value before plus the restarts since, and
   never above the budget.
   */
  lemma {:induction false} IntendedAttempts(mode: Mode, s: World, run: seq<Action>, name: Name)
    requires !mode.resetOnRespawn && name in s.table && NoStart(run, name) && Exec(mode, s, run).Some?
    requires s.table[name].restartCount <= s.table[name].config.maxRestarts
    ensures var t, c := Exec(mode, s, run).value, s.table[name].restartCount;
            && 0 <= Restarted(s, t, name) <= s.table[name].config.maxRestarts - c
            && LastAttempt(t.trace, name)
               == if Restarted(s, t, name) > 0 then c + Restarted(s, t, name) else LastAttempt(s.trace, name)
    decreases |run|
  {
    BudgetConserved(mode, s, run, name);
    if run != [] {
      StepCounts(mode, s, run[0], name);
      StepAnnounces(mode, s, run[0], name);
      IntendedAttempts(mode, Step(mode, s, run[0]), run[1..], name);
    }
  }

  // ---- as written ----

  /** The counter is back at zero, and the latest restart, if any, was announced as the first. */
  ghost predicate AlwaysFirst(s: World, name: Name) {
    && (name in s.table ==> s.table[name].restartCount == 0)
    && LastAttempt(s.trace, name) == if Restarts(s.trace, name) > 0 then 1 else 0
  }

  lemma {:induction false} StepAlwaysFirst(s: World, a: Action, name: Name)
    requires Linked(s) && Enabled(s, a) && name in s.table && AlwaysFirst(s, name)
    ensures AlwaysFirst(Step(AS_WRITTEN, s, a), name)
  {
    StepAnnounces(AS_WRITTEN, s, a, name);
    match a
    case MonitorPoll(other, late, fork) =>
      if LifeOf(s, s.table[other]).Zombie? {
        var w := LifeOf(s, s.table[other]).waitStatus;
        HandleExitEntry(AS_WRITTEN, WithMonitor(Reap(s, other), other, Detached), other, w, fork, name);
      }
    case WatchdogCheck(other, fork) =>
      if Reaps(s, a).Some? {
        var w := LifeOf(s, s.table[other]).waitStatus;
        HandleExitEntry(AS_WRITTEN, Reap(s, other), other, ExitStatus(w), fork, name);
      }
    case _ =>
  }

  /** Another process's exit says nothing about `name`, which need not even exist. */
  lemma {:induction false} ExitOfOther(
      mode: Mode, s: World, other: Name, waitStatus: nat, fork: Option<int>, name: Name)
    requires other in s.table && other != name
    ensures var t := HandleExit(mode, s, other, waitStatus, fork);
            Count(t.trace, name) == Count(s.trace, name) && LastAttempt(t.trace, name) == LastAttempt(s.trace, name)
  {
    var e, r := ExitEvent(other, s.table[other].pid, ExitStatus(waitStatus)), RecordExit(s, other, waitStatus);
    CountAppend(s.trace, e, name);
    AttemptAppend(s.trace, e, name);
    RestartCounts(mode, r, other, fork, name);
    RespawnAttempt(mode, r, other, fork, name);
  }

  /** `r` is `s` just after `waitpid`. */
  lemma {:induction false} ReapBeforeAdd(
      mode: Mode, s: World, r: World, other: Name, waitStatus: nat, fork: Option<int>, name: Name)
    requires name !in s.table && AlwaysFirst(s, name) && other in s.table
    requires r.trace == s.trace && r.table.Keys == s.table.Keys
    ensures AlwaysFirst(HandleExit(mode, r, other, waitStatus, fork), name)
  {
    ExitOfOther(mode, r, other, waitStatus, fork, name);
    SameNames(mode, r, other, waitStatus, fork);
  }

  lemma {:induction false} SameNames(mode: Mode, s: World, other: Name, waitStatus: nat, fork: Option<int>)
    requires other in s.table
    ensures HandleExit(mode, s, other, waitStatus, fork).table.Keys == s.table.Keys
  {
  }

  lemma {:induction false} StepBeforeAdd(s: World, a: Action, name: Name)
    requires Enabled(s, a) && name !in s.table && AlwaysFirst(s, name)
    ensures AlwaysFirst(Step(AS_WRITTEN, s, a), name)
  {
    match a
    case MonitorPoll(other, late, fork) =>
      if LifeOf(s, s.table[other]).Zombie? {
        var w := LifeOf(s, s.table[other]).waitStatus;
        ReapBeforeAdd(AS_WRITTEN, s, WithMonitor(Reap(s, other), other, Detached), other, w, fork, name);
      }
    case WatchdogCheck(other, fork) =>
      if Reaps(s, a).Some? {
        var w := LifeOf(s, s.table[other]).waitStatus;
        ReapBeforeAdd(AS_WRITTEN, s, Reap(s, other), other, ExitStatus(w), fork, name);
      }
    case Start(other, fork) =>
      if other in s.table {
        SpawnCounts(AS_WRITTEN, s, other, fork, name);
        SpawnAttempt(AS_WRITTEN, s, other, fork, name);
      }
    case _ =>
  }

  lemma {:induction false} RunAlwaysFirst(s: World, run: seq<Action>, name: Name)
    requires Linked(s) && AlwaysFirst(s, name) && Exec(AS_WRITTEN, s, run).Some?
    ensures AlwaysFirst(Exec(AS_WRITTEN, s, run).value, name)
    decreases |run|
  {
    if run != [] {
      if name in s.table {
        StepAlwaysFirst(s, run[0], name);
      } else {
        StepBeforeAdd(s, run[0], name);
      }
      StepLinked(AS_WRITTEN, s, run[0]);
      RunAlwaysFirst(Step(AS_WRITTEN, s, run[0]), run[1..], name);
    }
  }

  /** As written every restart is announced as attempt 1, however many there have been. */
  lemma {:induction false} AsWrittenAttempts(run: seq<Action>, name: Name)
    requires Exec(AS_WRITTEN, INIT, run).Some?
    ensures var t := Exec(AS_WRITTEN, INIT, run).value;
            LastAttempt(t.trace, name) == if Restarts(t.trace, name) > 0 then 1 else 0
  {
    RunAlwaysFirst(INIT, run, name);
  }

  // ---- a new start ----

  /** An accepted start gives the whole budget back: the process can crash and be restarted max_restarts times again. */
  lemma {:induction false} StartRefillsBudget(mode: Mode, s: World, name: Name, pid: int) returns (u: World)
    requires pid > 0 && s.lock == None && name in s.table && s.table[name].status != Running
    requires s.table[name].config.policy != Never && s.table[name].config.maxRestarts > 0
    requires forall p | p in s.children :: p < pid
    ensures var n := s.table[name].config.maxRestarts;
            && Exec(mode, s, [Start(name, Some(pid))] + CrashLoop(name, pid, n)) == Some(u)
            && Restarted(s, u, name) == n && Spawned(s, u, name) == n + 1
  {
    var n, start := s.table[name].config.maxRestarts, Start(name, Some(pid));
    var t := Step(mode, s, start);
    StartedRuns(mode, s, name, pid);
    u := CrashLoopRuns(mode, t, name, pid, n);
    Unroll(mode, s, [start]);
    ExecAppend(mode, s, [start], CrashLoop(name, pid, n));
  }

  lemma {:induction false} StartedRuns(mode: Mode, s: World, name: Name, pid: int)
    requires pid > 0 && s.lock == None && name in s.table && s.table[name].status != Running
    requires forall p | p in s.children :: p < pid
    ensures var t := Step(mode, s, Start(name, Some(pid)));
            && Enabled(s, Start(name, Some(pid))) && RunsAs(t, name, pid)
            && t.table[name].config == s.table[name].config && t.table[name].restartCount == 0
            && Restarted(s, t, name) == 0 && Spawned(s, t, name) == 1
  {
    var e := s.table[name];
    var ready := s.(table := s.table[name := if mode.resetOnRespawn then e else e.(restartCount := 0)]);
    SpawnCounts(mode, ready, name, Some(pid), name);
  }
}
