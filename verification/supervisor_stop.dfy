/** What stopping does to a process and to the child it leaves, and what a timeout does. */
module SupervisorStop {
  import opened Results
  import opened Supervisor
  import opened SupervisorTrace
  import opened SupervisorRestarts

  // ---- processes nobody polls ----

  /**
   The monitor thread of `name` has returned, or is at the head of its loop and will find the
   running flag cleared.
   */
  predicate Off(s: World, name: Name) {
    && name in s.table
    && (s.table[name].monitor == Detached || (s.table[name].monitor == Waiting && !s.table[name].running))
  }

  /** An explicit start of `name`, or the watchdog reaping it: the only steps that concern a process that is off. */
  predicate Disturbs(s: World, a: Action, name: Name)
    requires Enabled(s, a)
  {
    (a.Start? && a.name == name) || (a.WatchdogCheck? && a.name == name && Reaps(s, a).Some?)
  }

  predicate Undisturbed(mode: Mode, s: World, run: seq<Action>, name: Name)
    decreases |run|
  {
    run == [] || !Enabled(s, run[0])
    || (!Disturbs(s, run[0], name) && Undisturbed(mode, Step(mode, s, run[0]), run[1..], name))
  }

  /** Nothing was recorded, restarted or spawned for `name`, and its child was not reaped. */
  ghost predicate LeftAlone(s: World, t: World, name: Name) {
    && name in s.table && name in t.table
    && t.table[name].pid == s.table[name].pid && t.table[name].exitCode == s.table[name].exitCode
    && t.table[name].restartCount == s.table[name].restartCount
    && Count(t.trace, name) == Count(s.trace, name)
    && (LifeOf(t, t.table[name]) == Reaped <==> LifeOf(s, s.table[name]) == Reaped)
  }

  predicate NoPoll(run: seq<Action>, name: Name) {
    forall i | 0 <= i < |run| :: !(run[i].MonitorPoll? && run[i].name == name)
  }

  /** `r` is `s` just after another process's child was reaped. */
  lemma {:induction false} ReapOfOther(
      mode: Mode, s: World, r: World, other: Name, waitStatus: nat, fork: Option<int>, name: Name)
    requires Linked(s) && Off(s, name) && other in s.table && other != name && ForkPossible(s, fork)
    requires r.trace == s.trace && r.table.Keys == s.table.Keys && r.table[name] == s.table[name]
    requires s.table[other].pid in s.children && r.children == Reap(s, other).children
    ensures var t := HandleExit(mode, r, other, waitStatus, fork); Off(t, name) && LeftAlone(s, t, name)
  {
    HandleExitCounts(mode, r, other, waitStatus, fork, name);
    HandleExitEntry(mode, r, other, waitStatus, fork, name);
  }

  lemma {:induction false} StartOfOther(mode: Mode, s: World, other: Name, fork: Option<int>, name: Name)
    requires Linked(s) && Off(s, name) && other != name && ForkPossible(s, fork)
    ensures var t := StartStep(mode, s, other, fork); Off(t, name) && LeftAlone(s, t, name)
  {
    if other in s.table {
      var e := s.table[other];
      var ready := if mode.resetOnRespawn then e else e.(restartCount := 0);
      SpawnCounts(mode, s.(table := s.table[other := ready]), other, fork, name);
    }
  }

  lemma {:induction false} StepOff(mode: Mode, s: World, a: Action, name: Name)
    requires Linked(s) && Off(s, name) && Enabled(s, a) && !Disturbs(s, a, name)
    ensures var t := Step(mode, s, a); Off(t, name) && LeftAlone(s, t, name)
    ensures !(a.MonitorPoll? && a.name == name)
  {
    match a
    case MonitorPoll(other, late, fork) =>
      if LifeOf(s, s.table[other]).Zombie? {
        ReapOfOther(mode, s, WithMonitor(Reap(s, other), other, Detached), other,
            LifeOf(s, s.table[other]).waitStatus, fork, name);
      }
    case WatchdogCheck(other, fork) =>
      if Reaps(s, a).Some? {
        var w := LifeOf(s, s.table[other]).waitStatus;
        ReapOfOther(mode, s, Reap(s, other), other, if mode.decodeTwice then ExitStatus(w) else w, fork, name);
      }
    case Start(other, fork) => StartOfOther(mode, s, other, fork, name);
    case _ =>
  }

  /**
   What is off stays off: no run without a start and without a watchdog reap of the process polls,
   reaps, restarts or spawns it.
   */
  lemma {:induction false} OffStaysOff(mode: Mode, s: World, run: seq<Action>, name: Name)
    requires Linked(s) && Off(s, name) && Exec(mode, s, run).Some? && Undisturbed(mode, s, run, name)
    ensures var t := Exec(mode, s, run).value; Linked(t) && Off(t, name) && LeftAlone(s, t, name)
    ensures NoPoll(run, name)
    decreases |run|
  {
    if run != [] {
      StepOff(mode, s, run[0], name);
      StepLinked(mode, s, run[0]);
      OffStaysOff(mode, Step(mode, s, run[0]), run[1..], name);
    }
  }

  // ---- three ways to be off ----

  /** A step after which the process is off, and that has left it alone itself. */
  ghost predicate TurnsOff(mode: Mode, s: World, a: Action, name: Name) {
    && Enabled(s, a) && Off(Step(mode, s, a), name) && LeftAlone(s, Step(mode, s, a), name)
  }

  /** Stopping a running process does, unless its monitor is past the test already; so does stopping all. */
  lemma {:induction false} StopTurnsOff(mode: Mode, s: World, name: Name)
    requires s.lock == None && name in s.table && s.table[name].status == Running && s.table[name].monitor != Polling
    ensures TurnsOff(mode, s, StopBegin(name), name) && TurnsOff(mode, s, StopAll, name)
  {
  }

  /** So does a poll that finds the process alive beyond its timeout. */
  lemma {:induction false} TimeoutTurnsOff(mode: Mode, s: World, name: Name, fork: Option<int>)
    requires Enabled(s, MonitorPoll(name, true, fork)) && !LifeOf(s, s.table[name]).Zombie?
    requires s.table[name].config.timeoutSeconds > 0
    ensures TurnsOff(mode, s, MonitorPoll(name, true, fork), name)
  {
  }

  /** From any reachable state, after such a step: nothing about the process happens until a start or the watchdog. */
  lemma {:induction false} TurnedOffStaysOff(mode: Mode, before: seq<Action>, a: Action, name: Name, after: seq<Action>)
    requires Exec(mode, INIT, before).Some? && TurnsOff(mode, Exec(mode, INIT, before).value, a, name)
    requires Exec(mode, INIT, before + ([a] + after)).Some?
    requires Undisturbed(mode, Step(mode, Exec(mode, INIT, before).value, a), after, name)
    ensures var s, t := Exec(mode, INIT, before).value, Exec(mode, INIT, before + ([a] + after)).value;
            && NoPoll(after, name) && Restarted(s, t, name) == 0 && Spawned(s, t, name) == 0
            && name in t.table && t.table[name].pid == s.table[name].pid
            && (Reported(t.trace, s.table[name].pid) <==> Reported(s.trace, s.table[name].pid))
  {
    var s := Exec(mode, INIT, before).value;
    RunLinked(mode, INIT, before);
    StepLinked(mode, s, a);
    ExecAppend(mode, INIT, before, [a] + after);
    assert ([a] + after)[1..] == after;
    OffStaysOff(mode, Step(mode, s, a), after, name);
    var t := Exec(mode, INIT, before + ([a] + after)).value;
    ReportedIsReaped(s, name);
    ReportedIsReaped(t, name);
  }

  lemma {:induction false} ReportedIsReaped(s: World, name: Name)
    requires Linked(s) && name in s.table
    ensures var pid := s.table[name].pid;
            Reported(s.trace, pid) <==> pid in s.children && LifeOf(s, s.table[name]) == Reaped
  {
  }

  /**
   A stop, and a stop of everything: unless the monitor is already polling, only a start or the
   watchdog can do anything more about the process.
   */
  lemma {:induction false} StopSilences(mode: Mode, before: seq<Action>, stop: Action, name: Name, after: seq<Action>)
    requires stop == StopBegin(name) || stop == StopAll
    requires Exec(mode, INIT, before).Some?
    requires var s := Exec(mode, INIT, before).value;
             && s.lock == None && name in s.table && s.table[name].status == Running && s.table[name].monitor != Polling
             && Undisturbed(mode, Step(mode, s, stop), after, name)
    requires Exec(mode, INIT, before + ([stop] + after)).Some?
    ensures var s, t := Exec(mode, INIT, before).value, Exec(mode, INIT, before + ([stop] + after)).value;
            && NoPoll(after, name) && Restarted(s, t, name) == 0 && Spawned(s, t, name) == 0
            && (Reported(t.trace, s.table[name].pid) <==> Reported(s.trace, s.table[name].pid))
  {
    StopTurnsOff(mode, Exec(mode, INIT, before).value, name);
    TurnedOffStaysOff(mode, before, stop, name, after);
  }

  /** A timed-out process likewise: it is killed, and no monitor is left to see it die. */
  lemma {:induction false} TimeoutSilences(
      mode: Mode, before: seq<Action>, name: Name, fork: Option<int>, after: seq<Action>)
    requires Exec(mode, INIT, before).Some?
    requires var s := Exec(mode, INIT, before).value;
             && Enabled(s, MonitorPoll(name, true, fork)) && !LifeOf(s, s.table[name]).Zombie?
             && s.table[name].config.timeoutSeconds > 0
             && Undisturbed(mode, Step(mode, s, MonitorPoll(name, true, fork)), after, name)
    requires Exec(mode, INIT, before + ([MonitorPoll(name, true, fork)] + after)).Some?
    ensures var s := Exec(mode, INIT, before).value;
            var t := Exec(mode, INIT, before + ([MonitorPoll(name, true, fork)] + after)).value;
            && NoPoll(after, name) && Restarted(s, t, name) == 0 && Spawned(s, t, name) == 0
            && (Reported(t.trace, s.table[name].pid) <==> Reported(s.trace, s.table[name].pid))
  {
    TimeoutTurnsOff(mode, Exec(mode, INIT, before).value, name, fork);
    TurnedOffStaysOff(mode, before, MonitorPoll(name, true, fork), name, after);
  }

  /**
   Two such runs: after a stop the monitor wakes, finds the flag cleared and returns; after a
   timeout it has returned already.
   */
  lemma {:induction false} MonitorLeaves(mode: Mode, name: Name, config: Config)
    requires config.timeoutSeconds > 0
    ensures var r := Exec(mode, INIT, Launch(name, config) + [StopBegin(name), MonitorWake(name)]);
            && r.Some? && name in r.value.table && r.value.table[name].monitor == Detached
            && r.value.table[name].status == Running && r.value.lock == Some(name)
    ensures var r := Exec(mode, INIT, Launch(name, config) + [MonitorWake(name), MonitorPoll(name, true, None)]);
            && r.Some? && name in r.value.table && r.value.table[name].monitor == Detached
            && r.value.table[name].status == Running
  {
    LaunchRuns(mode, name, config);
    var s := Exec(mode, INIT, Launch(name, config)).value;
    LaunchedUnlocked(mode, name, config);
    var stop, poll := [StopBegin(name), MonitorWake(name)], [MonitorWake(name), MonitorPoll(name, true, None)];
    ExecAppend(mode, INIT, Launch(name, config), stop);
    ExecAppend(mode, INIT, Launch(name, config), poll);
    Unroll(mode, s, stop);
    Unroll(mode, Step(mode, s, stop[0]), stop[1..]);
    Unroll(mode, s, poll);
    Unroll(mode, Step(mode, s, poll[0]), poll[1..]);
  }

  lemma {:induction false} LaunchedUnlocked(mode: Mode, name: Name, config: Config)
    ensures var r := Exec(mode, INIT, Launch(name, config)); r.Some? && r.value.lock == None
  {
    var run := Launch(name, config);
    Unroll(mode, INIT, run);
    Unroll(mode, Step(mode, INIT, run[0]), run[1..]);
  }

  // ---- polling in peace ----

  /** `n` rounds in which the monitor looks at a living process. */
  function PollRounds(name: Name, late: bool, n: nat): seq<Action>
    decreases n
  {
    if n == 0 then [] else [MonitorWake(name), MonitorPoll(name, late, None)] + PollRounds(name, late, n - 1)
  }

  /** They change nothing at all, as long as there is no timeout or it has not passed. */
  lemma {:induction false} PollingChangesNothing(mode: Mode, s: World, name: Name, pid: int, late: bool, n: nat)
    requires RunsAs(s, name, pid) && (late ==> s.table[name].config.timeoutSeconds == 0)
    ensures Exec(mode, s, PollRounds(name, late, n)) == Some(s)
    decreases n
  {
    if n > 0 {
      var round := [MonitorWake(name), MonitorPoll(name, late, None)];
      var awake := Step(mode, s, round[0]);
      Unroll(mode, s, round);
      Unroll(mode, awake, round[1..]);
      assert Step(mode, awake, round[1]).table == s.table;
      ExecAppend(mode, s, round, PollRounds(name, late, n - 1));
      PollingChangesNothing(mode, s, name, pid, late, n - 1);
    }
  }
}
