/** Where the restart policy does less than it says: deaths by signal, deaths the watchdog sees first, and ALWAYS. */
module SupervisorExits {
  import opened Results
  import opened Supervisor
  import opened SupervisorTrace
  import opened SupervisorRestarts

  // ---- deaths by signal ----

  datatype Ending = Exited(code: nat) | Signalled(signal: nat)

  /**
   What `waitpid` reports for a dead child on Linux: an exit code in the second byte, or a signal
   in the low seven bits, with the core flag above them.
   */
  predicate IsWaitStatus(waitStatus: nat) {
    waitStatus < 0x1_0000 && (waitStatus % 256 == 0 || (waitStatus < 256 && 1 <= waitStatus % 128 <= 126))
  }

  function EndingOf(waitStatus: nat): Ending {
    if waitStatus % 128 == 0 then Exited(waitStatus / 256 % 256) else Signalled(waitStatus % 128)
  }

  predicate Failure(e: Ending) {
    e != Exited(0)
  }

  predicate MayRestart(e: Entry) {
    e.config.policy != Never && e.restartCount < e.config.maxRestarts
  }

  datatype Reaper = ByMonitor | ByWatchdog

  /** The child's death as one of the two threads that may reap it handles it. */
  function ReapedBy(mode: Mode, who: Reaper, s: World, name: Name, waitStatus: nat, fork: Option<int>): World
    requires name in s.table && s.table[name].pid in s.children
  {
    match who
    case ByMonitor => MonitorReap(mode, s, name, waitStatus, fork)
    case ByWatchdog => WatchdogReap(mode, s, name, waitStatus, fork)
  }

  /** The reaper hands on the wait status it got, not an exit code in its place. */
  predicate Undecoded(mode: Mode, who: Reaper) {
    who == ByMonitor || !mode.decodeTwice
  }

  /** The child exited by itself, and its exit code is not lost in a second decoding. */
  predicate JudgedRight(mode: Mode, who: Reaper, waitStatus: nat) {
    waitStatus % 128 == 0 && (Undecoded(mode, who) || ExitStatus(waitStatus) == 0)
  }

  /** The exit event and the counts, in terms of the exit code that is recorded. */
  lemma {:induction false} ReapOutcome(
      mode: Mode, who: Reaper, s: World, name: Name, waitStatus: nat, fork: Option<int>)
    requires name in s.table && s.table[name].pid in s.children && waitStatus < 0x1_0000
    ensures var t := ReapedBy(mode, who, s, name, waitStatus, fork);
            var code := RecordedCode(mode, who, waitStatus);
            && |t.trace| > |s.trace| && t.trace[|s.trace|] == ExitEvent(name, s.table[name].pid, code)
            && Restarted(s, t, name) == if code != 0 && MayRestart(s.table[name]) then 1 else 0
  {
    var r := if who == ByMonitor then WithMonitor(Reap(s, name), name, Detached) else Reap(s, name);
    var w := if Undecoded(mode, who) then waitStatus else ExitStatus(waitStatus);
    assert ExitStatus(ExitStatus(waitStatus)) == 0;
    HandleExitCounts(mode, r, name, w, fork, name);
    ExitIsNext(mode, r, name, w, fork);
  }

  /**
   Whoever reaps, the event matches how the child ended exactly when it exited by itself and its
   code was decoded once or is 0. Otherwise a failure is reported as a normal stop, and not
   restarted even where a restart is due.
   */
  lemma {:induction false} ExitJudgedRight(
      mode: Mode, who: Reaper, s: World, name: Name, waitStatus: nat, fork: Option<int>)
    requires name in s.table && s.table[name].pid in s.children && IsWaitStatus(waitStatus)
    ensures var t, ending := ReapedBy(mode, who, s, name, waitStatus, fork), EndingOf(waitStatus);
            && |t.trace| > |s.trace| && IsExit(t.trace[|s.trace|])
            && ((t.trace[|s.trace|].EvCrashed? <==> Failure(ending)) <==> JudgedRight(mode, who, waitStatus))
            && ((Restarted(s, t, name) == 1 <==> Failure(ending) && MayRestart(s.table[name]))
                <==> JudgedRight(mode, who, waitStatus) || !MayRestart(s.table[name]))
  {
    ReapOutcome(mode, who, s, name, waitStatus, fork);
    CodeTellsFailure(mode, who, waitStatus);
  }

  /** The code that is recorded. */
  function RecordedCode(mode: Mode, who: Reaper, waitStatus: nat): nat {
    if Undecoded(mode, who) then ExitStatus(waitStatus) else 0
  }

  lemma {:induction false} CodeTellsFailure(mode: Mode, who: Reaper, waitStatus: nat)
    requires IsWaitStatus(waitStatus)
    ensures (RecordedCode(mode, who, waitStatus) != 0 <==> Failure(EndingOf(waitStatus)))
            <==> JudgedRight(mode, who, waitStatus)
    ensures RecordedCode(mode, who, waitStatus) != 0 ==> Failure(EndingOf(waitStatus))
  {
    if waitStatus % 128 == 0 {
      assert waitStatus % 256 == 0;
    } else {
      assert ExitStatus(waitStatus) == 0;
    }
  }

  lemma {:induction false} ExitIsNext(mode: Mode, s: World, name: Name, waitStatus: nat, fork: Option<int>)
    requires name in s.table
    ensures var t := HandleExit(mode, s, name, waitStatus, fork);
            |t.trace| > |s.trace| && t.trace[|s.trace|] == ExitEvent(name, s.table[name].pid, ExitStatus(waitStatus))
  {
  }

  /** The step in which a thread finds `name`'s child dead, if it is. */
  function ReapStep(who: Reaper, name: Name, late: bool, fork: Option<int>): Action {
    match who
    case ByMonitor => MonitorPoll(name, late, fork)
    case ByWatchdog => WatchdogCheck(name, fork)
  }

  /** The next such step will reap a child killed by a signal; the watchdog looks only at running entries. */
  ghost predicate KilledBySignal(s: World, who: Reaper, name: Name) {
    && name in s.table && LifeOf(s, s.table[name]).Zombie?
    && IsWaitStatus(LifeOf(s, s.table[name]).waitStatus) && EndingOf(LifeOf(s, s.table[name]).waitStatus).Signalled?
    && (who == ByWatchdog ==> s.table[name].status == Running && s.table[name].pid > 0)
  }

  /**
   In any run: once a child killed by a signal has been reaped, by either thread, the process
   stays down until somebody starts it, whatever its policy.
   */
  lemma {:induction false} SignalDeathIsFinal(
      mode: Mode, who: Reaper, before: seq<Action>, name: Name, late: bool, fork: Option<int>, after: seq<Action>)
    requires Exec(mode, INIT, before).Some? && Enabled(Exec(mode, INIT, before).value, ReapStep(who, name, late, fork))
    requires KilledBySignal(Exec(mode, INIT, before).value, who, name) && NoStart(after, name)
    requires Exec(mode, INIT, before + ([ReapStep(who, name, late, fork)] + after)).Some?
    ensures var s := Exec(mode, INIT, before).value;
            var t := Exec(mode, INIT, before + ([ReapStep(who, name, late, fork)] + after)).value;
            Restarted(s, t, name) == 0 && Spawned(s, t, name) == 0
  {
    var s, reap := Exec(mode, INIT, before).value, ReapStep(who, name, late, fork);
    var t := Step(mode, s, reap);
    RunLinked(mode, INIT, before);
    StepLinked(mode, s, reap);
    SignalStops(mode, who, s, name, late, fork);
    ExecAppend(mode, INIT, before, [reap] + after);
    assert ([reap] + after)[1..] == after;
    QuietUntilStarted(mode, t, after, name);
  }

  lemma {:induction false} SignalStops(mode: Mode, who: Reaper, s: World, name: Name, late: bool, fork: Option<int>)
    requires Linked(s) && KilledBySignal(s, who, name) && Enabled(s, ReapStep(who, name, late, fork))
    ensures var t := Step(mode, s, ReapStep(who, name, late, fork));
            Restarted(s, t, name) == 0 && Spawned(s, t, name) == 0 && Quiet(t, name)
  {
    var w := LifeOf(s, s.table[name]).waitStatus;
    var r := if who == ByMonitor then WithMonitor(Reap(s, name), name, Detached) else Reap(s, name);
    var handed := if Undecoded(mode, who) then w else ExitStatus(w);
    assert ExitStatus(handed) == 0;
    assert Step(mode, s, ReapStep(who, name, late, fork)) == HandleExit(mode, r, name, handed, fork);
    HandleExitCounts(mode, r, name, handed, fork, name);
    HandleExitEntry(mode, r, name, handed, fork, name);
  }

  const SIGKILL: nat := 9

  function KilledRun(name: Name, config: Config): seq<Action> {
    [Add(name, config), Start(name, Some(1)), Exit(1, SIGKILL), MonitorWake(name), MonitorPoll(name, false, Some(2))]
  }

  /** The run that shows it: the only child is killed, its monitor reaps it, and a STOPPED event is all that happens. */
  lemma {:induction false} KilledChildStays(mode: Mode, name: Name, config: Config)
    ensures var r := Exec(mode, INIT, KilledRun(name, config));
            && r.Some? && r.value.trace == [EvStarted(name, 1), EvStopped(name, 1)]
            && name in r.value.table && r.value.table[name].status == Status.Stopped
  {
    var run := KilledRun(name, config);
    var s1 := Step(mode, INIT, run[0]);
    var s2 := Step(mode, s1, run[1]);
    var s3 := Step(mode, s2, run[2]);
    var s4 := Step(mode, s3, run[3]);
    Unroll(mode, INIT, run);
    Unroll(mode, s1, run[1..]);
    Unroll(mode, s2, run[1..][1..]);
    Unroll(mode, s3, run[1..][1..][1..]);
    Unroll(mode, s4, run[1..][1..][1..][1..]);
  }

  // ---- policy ALWAYS ----

  /** The same configuration with ON_FAILURE for ALWAYS. */
  function Weaken(c: Config): Config {
    if c.policy == Always then c.(policy := OnFailure) else c
  }

  function WeakenEntry(e: Entry): Entry {
    e.(config := Weaken(e.config))
  }

  function WeakenWorld(s: World): World {
    s.(table := map n | n in s.table :: WeakenEntry(s.table[n]))
  }

  function WeakenAction(a: Action): Action {
    match a
    case Add(name, config) => Add(name, Weaken(config))
    case _ => a
  }

  function WeakenRun(run: seq<Action>): (r: seq<Action>)
    ensures |r| == |run| && forall i | 0 <= i < |run| :: r[i] == WeakenAction(run[i])
  {
    if run == [] then [] else [WeakenAction(run[0])] + WeakenRun(run[1..])
  }

  lemma {:induction false} WeakenUpdate(s: World, name: Name, e: Entry)
    ensures WeakenWorld(s.(table := s.table[name := e]))
        == WeakenWorld(s).(table := WeakenWorld(s).table[name := WeakenEntry(e)])
  {
  }

  lemma {:induction false} SpawnWeakens(mode: Mode, s: World, name: Name, fork: Option<int>)
    requires name in s.table
    ensures Spawn(mode, WeakenWorld(s), name, fork) == WeakenWorld(Spawn(mode, s, name, fork))
  {
    WeakenUpdate(s, name, Spawn(mode, s, name, fork).table[name]);
  }

  lemma {:induction false} RecordWeakens(s: World, name: Name, waitStatus: nat)
    requires name in s.table
    ensures RecordExit(WeakenWorld(s), name, waitStatus) == WeakenWorld(RecordExit(s, name, waitStatus))
  {
    WeakenUpdate(s, name, RecordExit(s, name, waitStatus).table[name]);
  }

  lemma {:induction false} AnnounceWeakens(s: World, name: Name)
    requires name in s.table
    ensures Announced(WeakenWorld(s), name) == WeakenWorld(Announced(s, name))
  {
    WeakenUpdate(s, name, Announced(s, name).table[name]);
  }

  lemma {:induction false} RespawnWeakens(mode: Mode, s: World, name: Name, fork: Option<int>)
    requires name in s.table
    ensures Respawn(mode, WeakenWorld(s), name, fork) == WeakenWorld(Respawn(mode, s, name, fork))
  {
    AnnounceWeakens(s, name);
    SpawnWeakens(mode, Announced(s, name), name, fork);
  }

  lemma {:induction false} RestartWeakens(mode: Mode, s: World, name: Name, fork: Option<int>)
    requires name in s.table
    ensures RestartOrNot(mode, WeakenWorld(s), name, fork) == WeakenWorld(RestartOrNot(mode, s, name, fork))
  {
    RespawnWeakens(mode, s, name, fork);
    WeakenUpdate(s, name, s.table[name].(status := Failed));
  }

  lemma {:induction false} HandleExitWeakens(mode: Mode, s: World, name: Name, waitStatus: nat, fork: Option<int>)
    requires name in s.table
    ensures HandleExit(mode, WeakenWorld(s), name, waitStatus, fork)
        == WeakenWorld(HandleExit(mode, s, name, waitStatus, fork))
  {
    RecordWeakens(s, name, waitStatus);
    RestartWeakens(mode, RecordExit(s, name, waitStatus), name, fork);
  }

  lemma {:induction false} StartWeakens(mode: Mode, s: World, name: Name, fork: Option<int>)
    ensures StartStep(mode, WeakenWorld(s), name, fork) == WeakenWorld(StartStep(mode, s, name, fork))
  {
    if name in s.table {
      var e := s.table[name];
      var ready := if mode.resetOnRespawn then e else e.(restartCount := 0);
      WeakenUpdate(s, name, ready);
      SpawnWeakens(mode, s.(table := s.table[name := ready]), name, fork);
    }
  }

  lemma {:induction false} PollWeakens(mode: Mode, s: World, name: Name, late: bool, fork: Option<int>)
    requires name in s.table
    ensures MonitorPollStep(mode, WeakenWorld(s), name, late, fork)
        == WeakenWorld(MonitorPollStep(mode, s, name, late, fork))
  {
    var e := s.table[name];
    WeakenUpdate(s, name, e.(monitor := Detached));
    WeakenUpdate(s, name, e.(monitor := Waiting));
    if LifeOf(s, e).Zombie? {
      WeakenUpdate(Reap(s, name), name, e.(monitor := Detached));
      HandleExitWeakens(mode, WithMonitor(Reap(s, name), name, Detached), name, LifeOf(s, e).waitStatus, fork);
    }
  }

  lemma {:induction false} CheckWeakens(mode: Mode, s: World, name: Name, fork: Option<int>)
    requires name in s.table
    ensures WatchdogStep(mode, WeakenWorld(s), name, fork) == WeakenWorld(WatchdogStep(mode, s, name, fork))
  {
    var e := s.table[name];
    if LifeOf(s, e).Zombie? {
      var w := LifeOf(s, e).waitStatus;
      HandleExitWeakens(mode, Reap(s, name), name, if mode.decodeTwice then ExitStatus(w) else w, fork);
    }
  }

  lemma {:induction false} StepWeakens(mode: Mode, s: World, a: Action)
    ensures Enabled(WeakenWorld(s), WeakenAction(a)) <==> Enabled(s, a)
    ensures Enabled(s, a) ==> Step(mode, WeakenWorld(s), WeakenAction(a)) == WeakenWorld(Step(mode, s, a))
  {
    if Enabled(s, a) {
      match a
      case Add(name, config) => WeakenUpdate(s, name, NewEntry(config));
      case Start(name, fork) => StartWeakens(mode, s, name, fork);
      case StopBegin(name) =>
        if name in s.table { WeakenUpdate(s, name, s.table[name].(running := false)); }
      case StopEnd(name) => WeakenUpdate(s, name, s.table[name].(status := Status.Stopped));
      case MonitorWake(name) => WeakenUpdate(s, name, MonitorWakeStep(s, name).table[name]);
      case MonitorPoll(name, late, fork) => PollWeakens(mode, s, name, late, fork);
      case WatchdogCheck(name, fork) => CheckWeakens(mode, s, name, fork);
      case StopAll => assert Step(mode, WeakenWorld(s), a).table == WeakenWorld(Step(mode, s, a)).table;
      case Exit(_, _) =>
    }
  }

  /**
   ALWAYS is ON_FAILURE: with it in every configuration the same runs are possible, and they
   go through the same states, up to the configurations, and report the same events.
   */
  lemma {:induction false} AlwaysIsOnFailure(mode: Mode, s: World, run: seq<Action>)
    ensures Exec(mode, s, run).Some? <==> Exec(mode, WeakenWorld(s), WeakenRun(run)).Some?
    ensures Exec(mode, s, run).Some? ==>
              && Exec(mode, WeakenWorld(s), WeakenRun(run)).value == WeakenWorld(Exec(mode, s, run).value)
              && Exec(mode, WeakenWorld(s), WeakenRun(run)).value.trace == Exec(mode, s, run).value.trace
    decreases |run|
  {
    if run != [] {
      StepWeakens(mode, s, run[0]);
      assert WeakenRun(run)[1..] == WeakenRun(run[1..]);
      if Enabled(s, run[0]) {
        AlwaysIsOnFailure(mode, Step(mode, s, run[0]), run[1..]);
      }
    }
  }

  /**
   So ALWAYS keeps its name only for failures: a death is answered with the restart it promises
   exactly when the exit code is not 0 and was decoded once, or no restart is left to give.
   */
  lemma {:induction false} AlwaysKept(mode: Mode, who: Reaper, s: World, name: Name, waitStatus: nat, fork: Option<int>)
    requires name in s.table && s.table[name].pid in s.children && s.table[name].config.policy == Always
    requires waitStatus < 0x1_0000
    ensures var t, e := ReapedBy(mode, who, s, name, waitStatus, fork), s.table[name];
            (Restarted(s, t, name) == 1 <==> e.restartCount < e.config.maxRestarts)
            <==> (ExitStatus(waitStatus) != 0 && Undecoded(mode, who)) || e.restartCount >= e.config.maxRestarts
  {
    ReapOutcome(mode, who, s, name, waitStatus, fork);
  }
}
