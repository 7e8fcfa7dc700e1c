/** The children of one process over whole runs: how many live at a time, and which are lost to a stop. */
module SupervisorChildren {
  import opened Results
  import opened Supervisor
  import opened SupervisorTrace
  import opened SupervisorRestarts
  import opened SupervisorStop

  // ---- one child at a time ----

  predicate NoStopEnd(run: seq<Action>, name: Name) {
    forall i | 0 <= i < |run| :: !(run[i].StopEnd? && run[i].name == name)
  }

  predicate Unreaped(s: World, pid: int, name: Name) {
    pid in s.children && s.children[pid].parent == name && s.children[pid].life != Reaped
  }

  /**
   The only child of `name` that has not been reaped, if any, is its entry's current one, and the
   entry is RUNNING.
   */
  ghost predicate Single(s: World, name: Name) {
    forall p | p in s.children && s.children[p].parent == name && s.children[p].life != Reaped ::
      name in s.table && s.table[name].pid == p && s.table[name].status == Running
  }

  lemma {:induction false} SpawnSingle(mode: Mode, s: World, other: Name, fork: Option<int>, name: Name)
    requires Single(s, name) && other in s.table && ForkPossible(s, fork)
    requires other == name ==> LifeOf(s, s.table[name]) == Reaped && s.table[name].status != Running
    ensures Single(Spawn(mode, s, other, fork), name)
  {
  }

  lemma {:induction false} StartSingle(mode: Mode, s: World, other: Name, fork: Option<int>, name: Name)
    requires Linked(s) && Single(s, name) && ForkPossible(s, fork)
    ensures Single(StartStep(mode, s, other, fork), name)
  {
    if other in s.table && s.table[other].status != Running {
      var e := s.table[other];
      var ready := s.(table := s.table[other := if mode.resetOnRespawn then e else e.(restartCount := 0)]);
      assert Single(ready, name);
      SpawnSingle(mode, ready, other, fork, name);
    }
  }

  /** `r` is `s` just after `waitpid`. */
  lemma {:induction false} ReapSingle(
      mode: Mode, s: World, r: World, other: Name, waitStatus: nat, fork: Option<int>, name: Name)
    requires Linked(s) && Single(s, name) && other in s.table && ForkPossible(s, fork)
    requires s.table[other].pid in s.children && r.children == Reap(s, other).children && r.table.Keys == s.table.Keys
    requires forall n | n in r.table :: r.table[n] == s.table[n].(monitor := r.table[n].monitor)
    ensures Single(HandleExit(mode, r, other, waitStatus, fork), name)
  {
    var q := RecordExit(r, other, waitStatus);
    var e := q.table[other];
    assert Single(q, name) && LifeOf(q, e) == Reaped && e.status == Status.Stopped;
    if e.exitCode != 0 && e.config.policy != Never && e.restartCount < e.config.maxRestarts {
      SpawnSingle(mode, Announced(q, other), other, fork, name);
    }
  }

  lemma {:induction false} StepSingle(mode: Mode, s: World, a: Action, name: Name)
    requires Linked(s) && Single(s, name) && Enabled(s, a) && !(a.StopEnd? && a.name == name)
    ensures Single(Step(mode, s, a), name)
  {
    match a
    case MonitorPoll(other, late, fork) =>
      if LifeOf(s, s.table[other]).Zombie? {
        ReapSingle(mode, s, WithMonitor(Reap(s, other), other, Detached), other,
            LifeOf(s, s.table[other]).waitStatus, fork, name);
      }
    case WatchdogCheck(other, fork) =>
      if Reaps(s, a).Some? {
        var w := LifeOf(s, s.table[other]).waitStatus;
        ReapSingle(mode, s, Reap(s, other), other, if mode.decodeTwice then ExitStatus(w) else w, fork, name);
      }
    case Start(other, fork) => StartSingle(mode, s, other, fork, name);
    case _ =>
  }

  lemma {:induction false} RunSingle(mode: Mode, s: World, run: seq<Action>, name: Name)
    requires Linked(s) && Single(s, name) && NoStopEnd(run, name) && Exec(mode, s, run).Some?
    ensures Single(Exec(mode, s, run).value, name)
    decreases |run|
  {
    if run != [] {
      StepSingle(mode, s, run[0], name);
      StepLinked(mode, s, run[0]);
      RunSingle(mode, Step(mode, s, run[0]), run[1..], name);
    }
  }

  /**
   As long as no `stop` of it has completed, a process never has two children that are alive or
   unreaped, however starts, restarts, watchdog and kernel interleave. A completed stop is what
   breaks it (`TwoChildren`).
   */
  lemma {:induction false} OneChildAtATime(mode: Mode, run: seq<Action>, name: Name, p: int, q: int)
    requires NoStopEnd(run, name) && Exec(mode, INIT, run).Some?
    ensures var s := Exec(mode, INIT, run).value;
            Unreaped(s, p, name) && Unreaped(s, q, name) ==> p == q
  {
    RunSingle(mode, INIT, run, name);
  }

  lemma {:induction false} TwoChildren(mode: Mode, name: Name, config: Config)
    ensures var r := Exec(mode, INIT, StopStart(name, config) + [Start(name, Some(2))]);
            && r.Some? && r.value.children == map[1 := Child(name, Alive), 2 := Child(name, Alive)]
  {
    var s := StopStartRuns(mode, name, config);
    ExecAppend(mode, INIT, StopStart(name, config), [Start(name, Some(2))]);
    Unroll(mode, s, [Start(name, Some(2))]);
  }

  // ---- running entries ----

  /** A RUNNING entry has a child, and that child has not been reaped. */
  ghost predicate RunningUnreaped(s: World, name: Name) {
    name in s.table && s.table[name].status == Running ==> Unreaped(s, s.table[name].pid, name)
  }

  lemma {:induction false} ReapKeepsRunning(
      mode: Mode, s: World, r: World, other: Name, waitStatus: nat, fork: Option<int>, name: Name)
    requires Linked(s) && RunningUnreaped(s, name) && other in s.table && ForkPossible(s, fork)
    requires s.table[other].pid in s.children && r.children == Reap(s, other).children && r.table.Keys == s.table.Keys
    requires forall n | n in r.table :: r.table[n] == s.table[n].(monitor := r.table[n].monitor)
    ensures RunningUnreaped(HandleExit(mode, r, other, waitStatus, fork), name)
  {
    if name in s.table {
      HandleExitEntry(mode, r, other, waitStatus, fork, name);
    }
  }

  lemma {:induction false} StepRunningUnreaped(mode: Mode, s: World, a: Action, name: Name)
    requires Linked(s) && RunningUnreaped(s, name) && Enabled(s, a)
    ensures RunningUnreaped(Step(mode, s, a), name)
  {
    match a
    case MonitorPoll(other, late, fork) =>
      if LifeOf(s, s.table[other]).Zombie? {
        var w := LifeOf(s, s.table[other]).waitStatus;
        ReapKeepsRunning(mode, s, WithMonitor(Reap(s, other), other, Detached), other, w, fork, name);
      }
    case WatchdogCheck(other, fork) =>
      if Reaps(s, a).Some? {
        var w := LifeOf(s, s.table[other]).waitStatus;
        ReapKeepsRunning(mode, s, Reap(s, other), other, if mode.decodeTwice then ExitStatus(w) else w, fork, name);
      }
    case _ =>
  }

  lemma {:induction false} RunRunningUnreaped(mode: Mode, s: World, run: seq<Action>, name: Name)
    requires Linked(s) && RunningUnreaped(s, name) && Exec(mode, s, run).Some?
    ensures RunningUnreaped(Exec(mode, s, run).value, name)
    decreases |run|
  {
    if run != [] {
      StepRunningUnreaped(mode, s, run[0], name);
      StepLinked(mode, s, run[0]);
      RunRunningUnreaped(mode, Step(mode, s, run[0]), run[1..], name);
    }
  }

  // ---- the child a stop leaves behind ----

  /** While a `stop` waits, it holds the mutex: only children and monitor threads move. */
  lemma {:induction false} LockedStep(mode: Mode, s: World, a: Action, name: Name)
    requires s.lock == Some(name) && Enabled(s, a) && !(a.StopEnd? && a.name == name)
    ensures a.Exit? || a.MonitorWake? || a.MonitorPoll?
    ensures Step(mode, s, a).lock == Some(name)
  {
    match a
    case MonitorPoll(other, late, fork) => HandleExitLock(mode, s, other, fork);
    case _ =>
  }

  lemma {:induction false} HandleExitLock(mode: Mode, s: World, other: Name, fork: Option<int>)
    requires other in s.table
    ensures forall late :: MonitorPollStep(mode, s, other, late, fork).lock == s.lock
  {
  }

  /** A stop of `name` is waiting, and nobody will reap its child `pid` meanwhile. */
  ghost predicate Waits(s: World, name: Name, pid: int) {
    && s.lock == Some(name) && Off(s, name) && s.table[name].pid == pid && s.table[name].status == Running
    && pid in s.children && s.children[pid].life != Reaped
  }

  lemma {:induction false} StepWaits(mode: Mode, s: World, a: Action, name: Name, pid: int)
    requires Linked(s) && Waits(s, name, pid) && Enabled(s, a) && !(a.StopEnd? && a.name == name)
    ensures Waits(Step(mode, s, a), name, pid)
  {
    LockedStep(mode, s, a, name);
    StepOff(mode, s, a, name);
    match a
    case MonitorPoll(other, late, fork) =>
      if LifeOf(s, s.table[other]).Zombie? {
        var r := WithMonitor(Reap(s, other), other, Detached);
        HandleExitEntry(mode, r, other, LifeOf(s, s.table[other]).waitStatus, fork, name);
      }
    case _ =>
  }

  lemma {:induction false} RunWaits(mode: Mode, s: World, run: seq<Action>, name: Name, pid: int)
    requires Linked(s) && Waits(s, name, pid) && NoStopEnd(run, name) && Exec(mode, s, run).Some?
    ensures var t := Exec(mode, s, run).value; Linked(t) && Waits(t, name, pid)
    decreases |run|
  {
    if run != [] {
      StepWaits(mode, s, run[0], name, pid);
      StepLinked(mode, s, run[0]);
      RunWaits(mode, Step(mode, s, run[0]), run[1..], name, pid);
    }
  }

  /** The child is unreaped, and its entry has either moved on to another or is stopped with no thread looking. */
  ghost predicate Abandoned(s: World, name: Name, pid: int) {
    && pid in s.children && s.children[pid].life != Reaped && s.children[pid].parent == name && name in s.table
    && (s.table[name].pid == pid ==> Off(s, name) && s.table[name].status != Running)
  }

  lemma {:induction false} StepAbandoned(mode: Mode, s: World, a: Action, name: Name, pid: int)
    requires Linked(s) && Abandoned(s, name, pid) && Enabled(s, a)
    ensures Abandoned(Step(mode, s, a), name, pid)
  {
    if s.table[name].pid != pid {
      StepOrphan(mode, s, a, pid);
      StepKeepsEntries(mode, s, a, name);
      StepKeepsChild(mode, s, a, pid);
    } else if !(a.Start? && a.name == name) {
      StepOff(mode, s, a, name);
      StepKeepsChild(mode, s, a, pid);
      StoppedStays(mode, s, a, name);
    }
  }

  lemma {:induction false} StepKeepsEntries(mode: Mode, s: World, a: Action, name: Name)
    requires Enabled(s, a) && name in s.table
    ensures name in Step(mode, s, a).table
  {
  }

  lemma {:induction false} StepKeepsChild(mode: Mode, s: World, a: Action, pid: int)
    requires Enabled(s, a) && pid in s.children
    ensures pid in Step(mode, s, a).children && Step(mode, s, a).children[pid].parent == s.children[pid].parent
  {
  }

  /** No step but a start makes an entry run that is off and not running. */
  lemma {:induction false} StoppedStays(mode: Mode, s: World, a: Action, name: Name)
    requires Off(s, name) && s.table[name].status != Running && Enabled(s, a) && !(a.Start? && a.name == name)
    ensures name in Step(mode, s, a).table && Step(mode, s, a).table[name].status != Running
  {
    match a
    case MonitorPoll(other, late, fork) =>
      if LifeOf(s, s.table[other]).Zombie? {
        var r := WithMonitor(Reap(s, other), other, Detached);
        HandleExitEntry(mode, r, other, LifeOf(s, s.table[other]).waitStatus, fork, name);
      }
    case WatchdogCheck(other, fork) =>
      if Reaps(s, a).Some? {
        var w := LifeOf(s, s.table[other]).waitStatus;
        HandleExitEntry(mode, Reap(s, other), other, if mode.decodeTwice then ExitStatus(w) else w, fork, name);
      }
    case _ =>
  }

  lemma {:induction false} RunAbandoned(mode: Mode, s: World, run: seq<Action>, name: Name, pid: int)
    requires Linked(s) && Abandoned(s, name, pid) && Exec(mode, s, run).Some?
    ensures var t := Exec(mode, s, run).value; Abandoned(t, name, pid) && !Reported(t.trace, pid)
    decreases |run|
  {
    if run != [] {
      StepAbandoned(mode, s, run[0], name, pid);
      StepLinked(mode, s, run[0]);
      RunAbandoned(mode, Step(mode, s, run[0]), run[1..], name, pid);
    }
  }

  /**
   Stopping a process whose monitor sleeps: its status never leaves RUNNING during the wait, so
   only the timeout can end it, whenever the child dies; and once the stop is complete, that
   child is never reaped and its exit never reported, whatever happens afterwards.
   */
  lemma {:induction false} StopLosesExit(
      mode: Mode, before: seq<Action>, name: Name, during: seq<Action>, after: seq<Action>)
    requires Exec(mode, INIT, before).Some? && NoStopEnd(during, name)
    requires var s := Exec(mode, INIT, before).value;
             && Enabled(s, StopBegin(name)) && name in s.table && s.table[name].status == Running
             && s.table[name].monitor != Polling
    requires Exec(mode, INIT, before + ([StopBegin(name)] + during)).Some?
    ensures var s, u := Exec(mode, INIT, before).value, Exec(mode, INIT, before + ([StopBegin(name)] + during)).value;
            && name in u.table && u.table[name].status == Running && Enabled(u, StopEnd(name))
            && (Exec(mode, u, [StopEnd(name)] + after).Some? ==>
                  !Reported(Exec(mode, u, [StopEnd(name)] + after).value.trace, s.table[name].pid))
  {
    var s := Exec(mode, INIT, before).value;
    var pid, t := s.table[name].pid, Step(mode, s, StopBegin(name));
    RunLinked(mode, INIT, before);
    RunRunningUnreaped(mode, INIT, before, name);
    StepLinked(mode, s, StopBegin(name));
    ExecAppend(mode, INIT, before, [StopBegin(name)] + during);
    assert ([StopBegin(name)] + during)[1..] == during;
    RunWaits(mode, t, during, name, pid);
    var u := Exec(mode, t, during).value;
    if Exec(mode, u, [StopEnd(name)] + after).Some? {
      StepLinked(mode, u, StopEnd(name));
      assert ([StopEnd(name)] + after)[1..] == after;
      RunAbandoned(mode, Step(mode, u, StopEnd(name)), after, name, pid);
    }
  }

  // ---- a stop that comes too late ----

  /** The monitor is past its test when `stop` comes, and still sees the child die. */
  function LateStop(name: Name): seq<Action> {
    [MonitorWake(name), StopBegin(name), Exit(1, CRASH), MonitorPoll(name, false, Some(2))]
  }

  /** A live, monitored child under an entry that says STOPPED. */
  predicate RunsUnderCover(t: World, name: Name) {
    && name in t.table && t.table[name].status == Status.Stopped
    && t.table[name].pid == 2 && t.table[name].running && t.table[name].monitor == Waiting
    && 2 in t.children && t.children[2] == Child(name, Alive)
  }

  /**
   Then the crash is answered during the wait. With restarts left, the process runs on as a new
   child under an entry marked STOPPED, and neither `stop` nor `stop_all` touches it any more;
   with none left, FAILED is overwritten by STOPPED.
   */
  lemma {:induction false} LateStopMisses(mode: Mode, name: Name, config: Config)
    requires config.policy != Never
    ensures var r := Exec(mode, INIT, Launch(name, config) + LateStop(name));
            && r.Some? && Enabled(r.value, StopEnd(name))
            && var t := Step(mode, r.value, StopEnd(name));
               && t.lock == None && t.table[name].status == Status.Stopped
               && (config.maxRestarts == 0 ==> r.value.table[name].status == Failed)
               && (config.maxRestarts > 0 ==>
                     RunsUnderCover(t, name) && Step(mode, t, StopBegin(name)) == t && Step(mode, t, StopAll) == t)
  {
    LaunchRuns(mode, name, config);
    LaunchedAlone(mode, name, config);
    var s := Exec(mode, INIT, Launch(name, config)).value;
    ExecAppend(mode, INIT, Launch(name, config), LateStop(name));
    var s3 := LateCrash(mode, s, name);
    LateReap(mode, s3, name);
    StoppedUntouched(mode, StopEndStep(Step(mode, s3, MonitorPoll(name, false, Some(2))), name), name);
  }

  /** Where nothing is marked RUNNING, stops do nothing. */
  lemma {:induction false} StoppedUntouched(mode: Mode, t: World, name: Name)
    requires t.lock == None && t.table.Keys == {name} && t.table[name].status != Running
    ensures Step(mode, t, StopBegin(name)) == t && Step(mode, t, StopAll) == t
  {
    assert StopAllStep(t).table == t.table;
  }

  /** Up to the poll that finds the child dead. */
  lemma {:induction false} LateCrash(mode: Mode, s: World, name: Name) returns (s3: World)
    requires RunsAs(s, name, 1) && s.lock == None && s.table.Keys == {name}
        && s.children == map[1 := Child(name, Alive)]
    ensures s3.table.Keys == {name} && s3.lock == Some(name) && s3.children == map[1 := Child(name, Zombie(CRASH))]
    ensures s3.table[name] == s.table[name].(running := false, monitor := Polling)
    ensures Exec(mode, s, LateStop(name)) == Some(Step(mode, s3, MonitorPoll(name, false, Some(2))))
  {
    var run := LateStop(name);
    var s1 := Step(mode, s, run[0]);
    var s2 := Step(mode, s1, run[1]);
    s3 := Step(mode, s2, run[2]);
    Unroll(mode, s, run);
    Unroll(mode, s1, run[1..]);
    Unroll(mode, s2, run[1..][1..]);
    Unroll(mode, s3, run[1..][1..][1..]);
  }

  lemma {:induction false} LaunchedAlone(mode: Mode, name: Name, config: Config)
    ensures var r := Exec(mode, INIT, Launch(name, config));
            && r.Some? && r.value.lock == None
            && r.value.table.Keys == {name} && r.value.children == map[1 := Child(name, Alive)]
  {
    var run := Launch(name, config);
    Unroll(mode, INIT, run);
    Unroll(mode, Step(mode, INIT, run[0]), run[1..]);
  }

  lemma {:induction false} LateReap(mode: Mode, s: World, name: Name)
    requires s.table.Keys == {name} && s.lock == Some(name) && s.children == map[1 := Child(name, Zombie(CRASH))]
    requires s.table[name].pid == 1 && s.table[name].monitor == Polling && s.table[name].config.policy != Never
    requires s.table[name].restartCount == 0
    ensures var u := Step(mode, s, MonitorPoll(name, false, Some(2)));
            && u.table.Keys == {name} && u.lock == Some(name)
            && (s.table[name].config.maxRestarts == 0 ==> u.table[name].status == Failed)
            && (s.table[name].config.maxRestarts > 0 ==>
                  && u.table[name].pid == 2 && u.table[name].running && u.table[name].monitor == Waiting
                  && u.table[name].status == Running && 2 in u.children && u.children[2] == Child(name, Alive))
  {
    assert ExitStatus(CRASH) == 1;
  }

  // ---- as written, off is off for good ----

  /** Off, or reaped: in either case nothing restarts the process. */
  ghost predicate Silent(s: World, name: Name) {
    Off(s, name) || Quiet(s, name)
  }

  lemma {:induction false} WatchdogQuiets(s: World, name: Name, fork: Option<int>)
    requires Linked(s) && Enabled(s, WatchdogCheck(name, fork)) && Reaps(s, WatchdogCheck(name, fork)).Some?
    ensures var t := Step(AS_WRITTEN, s, WatchdogCheck(name, fork));
            Quiet(t, name) && Count(t.trace, name) == Count(s.trace, name)
  {
    var w := LifeOf(s, s.table[name]).waitStatus;
    assert ExitStatus(ExitStatus(w)) == 0;
    HandleExitCounts(AS_WRITTEN, Reap(s, name), name, ExitStatus(w), fork, name);
    HandleExitEntry(AS_WRITTEN, Reap(s, name), name, ExitStatus(w), fork, name);
  }

  /**
   As written, a process that is off is not restarted by the watchdog either: only an explicit
   start brings it back.
   */
  lemma {:induction false} OffForGood(s: World, run: seq<Action>, name: Name)
    requires Linked(s) && Silent(s, name) && NoStart(run, name) && Exec(AS_WRITTEN, s, run).Some?
    ensures var t := Exec(AS_WRITTEN, s, run).value; Restarted(s, t, name) == 0 && Spawned(s, t, name) == 0
    decreases |run|
  {
    if run != [] {
      var a, t := run[0], Step(AS_WRITTEN, s, run[0]);
      StepLinked(AS_WRITTEN, s, a);
      if Quiet(s, name) {
        StepQuiet(AS_WRITTEN, s, a, name);
      } else if Disturbs(s, a, name) {
        WatchdogQuiets(s, name, a.fork);
      } else {
        StepOff(AS_WRITTEN, s, a, name);
      }
      OffForGood(t, run[1..], name);
    }
  }

  /** A reap that is not answered by a restart leaves the process off, or at its last poll. */
  lemma {:induction false} ReapTurnsOff(mode: Mode, s: World, a: Action, name: Name)
    requires Linked(s) && Enabled(s, a) && Reaps(s, a).Some? && (a.MonitorPoll? || a.WatchdogCheck?) && a.name == name
    requires Restarted(s, Step(mode, s, a), name) == 0
    requires a.WatchdogCheck? ==> s.table[name].monitor != Polling
    ensures Off(Step(mode, s, a), name) && !Step(mode, s, a).table[name].running
  {
    var w := LifeOf(s, s.table[name]).waitStatus;
    if a.MonitorPoll? {
      HandleExitCounts(mode, WithMonitor(Reap(s, name), name, Detached), name, w, a.fork, name);
    } else {
      HandleExitCounts(mode, Reap(s, name), name, if mode.decodeTwice then ExitStatus(w) else w, a.fork, name);
    }
  }
}
