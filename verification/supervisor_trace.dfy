/** The event trace of every run, in either mode: which events may follow which. */
module SupervisorTrace {
  import opened Results
  import opened Supervisor

  predicate IsExit(e: Event) {
    e.EvStopped? || e.EvCrashed?
  }

  /** The exit of child `pid` has been reported. */
  predicate Reported(trace: seq<Event>, pid: int) {
    exists e :: e in trace && IsExit(e) && e.pid == pid
  }

  predicate SpawnedBefore(trace: seq<Event>, pid: int) {
    exists e :: e in trace && e.EvStarted? && e.pid == pid
  }

  /** What may come after `past`. */
  predicate Allowed(past: seq<Event>, e: Event) {
    match e
    case EvStarted(_, pid) => !SpawnedBefore(past, pid)
    case EvStopped(name, pid) => EvStarted(name, pid) in past && !Reported(past, pid)
    case EvCrashed(name, pid, code) => code != 0 && EvStarted(name, pid) in past && !Reported(past, pid)
    case EvRestarted(name, attempt) =>
      attempt > 0 && past != [] && past[|past| - 1].EvCrashed? && past[|past| - 1].name == name
  }

  predicate Grammar(trace: seq<Event>) {
    trace == [] || (Grammar(trace[..|trace| - 1]) && Allowed(trace[..|trace| - 1], trace[|trace| - 1]))
  }

  lemma {:induction false} GrammarAppend(past: seq<Event>, e: Event)
    requires Grammar(past) && Allowed(past, e)
    ensures Grammar(past + [e])
  {
    assert (past + [e])[..|past|] == past;
  }

  /** An event that is no exit reports none. */
  lemma {:induction false} ReportsNothing(past: seq<Event>, e: Event)
    requires !IsExit(e)
    ensures forall p :: Reported(past + [e], p) <==> Reported(past, p)
  {
    forall p
      ensures Reported(past + [e], p) <==> Reported(past, p)
    {
      if Reported(past, p) {
        var x :| x in past && IsExit(x) && x.pid == p;
        assert x in past + [e];
      }
    }
  }

  /** Children and trace agree, whatever the table says. */
  ghost predicate Matched(trace: seq<Event>, children: map<int, Child>) {
    && (forall n, p :: EvStarted(n, p) in trace <==> p in children && children[p].parent == n)
    && (forall p :: Reported(trace, p) <==> p in children && children[p].life == Reaped)
  }

  /** Table, children and trace agree. */
  ghost predicate Linked(s: World) {
    && Grammar(s.trace) && Matched(s.trace, s.children)
    && (forall n | n in s.table && s.table[n].pid in s.children :: s.children[s.table[n].pid].parent == n)
    && (forall n | n in s.table :: s.table[n].pid in s.children || s.table[n].pid == -1)
    && (forall p | p in s.children :: p > 0)
  }

  /** Adding an exit event for a child that has just been reaped. */
  lemma {:induction false} ReportExit(s: World, name: Name, code: nat, pid: int)
    requires Linked(s) && name in s.table && pid == s.table[name].pid
    requires pid in s.children && s.children[pid].life != Reaped
    ensures var t := s.(trace := s.trace + [ExitEvent(name, pid, code)],
                        children := s.children[pid := s.children[pid].(life := Reaped)]);
            Linked(t)
  {
    var e := ExitEvent(name, pid, code);
    assert EvStarted(name, pid) in s.trace;
    GrammarAppend(s.trace, e);
    var trace := s.trace + [e];
    assert e in trace;
    forall p
      ensures Reported(trace, p) <==> Reported(s.trace, p) || p == pid
    {
      if Reported(s.trace, p) {
        var x :| x in s.trace && IsExit(x) && x.pid == p;
        assert x in trace;
      }
    }
  }

  lemma {:induction false} StartMatched(trace: seq<Event>, children: map<int, Child>, name: Name, pid: int)
    requires Matched(trace, children) && pid !in children
    ensures Allowed(trace, EvStarted(name, pid))
    ensures Matched(trace + [EvStarted(name, pid)], children[pid := Child(name, Alive)])
  {
    var e := EvStarted(name, pid);
    ReportsNothing(trace, e);
    assert !Reported(trace, pid);
    assert !SpawnedBefore(trace, pid);
  }

  lemma {:induction false} SpawnLinked(mode: Mode, s: World, name: Name, fork: Option<int>)
    requires Linked(s) && name in s.table && ForkPossible(s, fork)
    ensures Linked(Spawn(mode, s, name, fork))
  {
    if fork.Some? {
      StartMatched(s.trace, s.children, name, fork.value);
      GrammarAppend(s.trace, EvStarted(name, fork.value));
    }
  }

  /** Only the trace's crash matters to what a restart announces. */
  lemma {:induction false} AnnounceRestart(s: World, name: Name, attempt: nat)
    requires Linked(s) && attempt > 0
    requires s.trace != [] && s.trace[|s.trace| - 1].EvCrashed? && s.trace[|s.trace| - 1].name == name
    ensures Linked(s.(trace := s.trace + [EvRestarted(name, attempt)]))
  {
    var e := EvRestarted(name, attempt);
    GrammarAppend(s.trace, e);
    ReportsNothing(s.trace, e);
  }

  /** Entries may change everything but their pid. */
  lemma {:induction false} SamePids(s: World, t: World)
    requires Linked(s) && t.trace == s.trace && t.children == s.children
    requires forall n | n in t.table :: t.table[n].pid == if n in s.table then s.table[n].pid else -1
    ensures Linked(t)
  {
  }

  /** `r` is the state just after `waitpid`, before the exit is recorded. */
  lemma {:induction false} RecordLinked(s: World, r: World, name: Name, waitStatus: nat)
    requires Linked(s) && name in s.table && s.table[name].pid in s.children
    requires s.children[s.table[name].pid].life != Reaped
    requires r.children == Reap(s, name).children && r.trace == s.trace && r.table.Keys == s.table.Keys
    requires forall n | n in r.table :: r.table[n].pid == s.table[n].pid
    ensures Linked(RecordExit(r, name, waitStatus))
  {
    var pid, code := s.table[name].pid, ExitStatus(waitStatus);
    ReportExit(s, name, code, pid);
    SamePids(s.(trace := s.trace + [ExitEvent(name, pid, code)], children := r.children),
        RecordExit(r, name, waitStatus));
  }

  lemma {:induction false} RespawnLinked(mode: Mode, s: World, name: Name, fork: Option<int>)
    requires Linked(s) && name in s.table && ForkPossible(s, fork)
    requires s.trace != [] && s.trace[|s.trace| - 1].EvCrashed? && s.trace[|s.trace| - 1].name == name
    ensures Linked(Respawn(mode, s, name, fork))
  {
    var e := s.table[name];
    var again := s.(table := s.table[name := e.(restartCount := e.restartCount + 1, status := Restarting)]);
    SamePids(s, again);
    AnnounceRestart(again, name, e.restartCount + 1);
    SpawnLinked(mode, again.(trace := s.trace + [EvRestarted(name, e.restartCount + 1)]), name, fork);
  }

  lemma {:induction false} RestartLinked(mode: Mode, s: World, name: Name, fork: Option<int>)
    requires Linked(s) && name in s.table && ForkPossible(s, fork)
    requires s.trace != [] && s.trace[|s.trace| - 1] == ExitEvent(name, s.table[name].pid, s.table[name].exitCode)
    ensures Linked(RestartOrNot(mode, s, name, fork))
  {
    var e := s.table[name];
    if e.exitCode != 0 && e.config.policy != Never && e.restartCount < e.config.maxRestarts {
      RespawnLinked(mode, s, name, fork);
    } else {
      SamePids(s, RestartOrNot(mode, s, name, fork));
    }
  }

  lemma {:induction false} HandleExitLinked(
      mode: Mode, s: World, r: World, name: Name, waitStatus: nat, fork: Option<int>)
    requires Linked(s) && name in s.table && s.table[name].pid in s.children
    requires s.children[s.table[name].pid].life != Reaped && ForkPossible(s, fork)
    requires r.children == Reap(s, name).children && r.trace == s.trace && r.table.Keys == s.table.Keys
    requires forall n | n in r.table :: r.table[n].pid == s.table[n].pid
    ensures Linked(HandleExit(mode, r, name, waitStatus, fork))
  {
    RecordLinked(s, r, name, waitStatus);
    RestartLinked(mode, RecordExit(r, name, waitStatus), name, fork);
  }

  lemma {:induction false} StepLinked(mode: Mode, s: World, a: Action)
    requires Linked(s) && Enabled(s, a)
    ensures Linked(Step(mode, s, a))
  {
    match a
    case Start(name, fork) =>
      if name in s.table && s.table[name].status != Running {
        var e := s.table[name];
        var ready := s.(table := s.table[name := if mode.resetOnRespawn then e else e.(restartCount := 0)]);
        SamePids(s, ready);
        SpawnLinked(mode, ready, name, fork);
      }
    case MonitorPoll(name, late, fork) =>
      if LifeOf(s, s.table[name]).Zombie? {
        HandleExitLinked(mode, s, WithMonitor(Reap(s, name), name, Detached), name,
            LifeOf(s, s.table[name]).waitStatus, fork);
      } else {
        SamePids(s, Step(mode, s, a));
      }
    case WatchdogCheck(name, fork) =>
      if LifeOf(s, s.table[name]).Zombie? && s.table[name].status == Running && s.table[name].pid > 0 {
        var w := LifeOf(s, s.table[name]).waitStatus;
        HandleExitLinked(mode, s, Reap(s, name), name, if mode.decodeTwice then ExitStatus(w) else w, fork);
      }
    case Exit(pid, waitStatus) =>
    case _ =>
      SamePids(s, Step(mode, s, a));
  }

  /** Every state of every run is linked, so every trace follows the grammar. */
  lemma {:induction false} RunLinked(mode: Mode, s: World, run: seq<Action>)
    requires Linked(s)
    ensures Exec(mode, s, run).Some? ==> Linked(Exec(mode, s, run).value)
    decreases |run|
  {
    if run != [] && Enabled(s, run[0]) {
      StepLinked(mode, s, run[0]);
      RunLinked(mode, Step(mode, s, run[0]), run[1..]);
    }
  }

  /** What the grammar says event by event. */
  lemma {:induction false} GrammarAt(trace: seq<Event>, i: nat)
    requires Grammar(trace) && i < |trace|
    ensures Allowed(trace[..i], trace[i])
  {
    if i < |trace| - 1 {
      GrammarAt(trace[..|trace| - 1], i);
      assert trace[..|trace| - 1][..i] == trace[..i];
    }
  }

  /**
   In every reachable trace: an exit answers an earlier start of the same process and child,
   no child's exit is reported twice although two threads reap, no pid is started twice, and
   a restart directly follows a crash of the same process.
   */
  lemma {:induction false} TraceGrammar(mode: Mode, run: seq<Action>, i: nat)
    requires Exec(mode, INIT, run).Some?
    requires i < |Exec(mode, INIT, run).value.trace|
    ensures var t := Exec(mode, INIT, run).value.trace;
            && (IsExit(t[i]) ==> exists j :: 0 <= j < i && t[j] == EvStarted(t[i].name, t[i].pid))
            && (IsExit(t[i]) ==> forall j | 0 <= j < |t| && j != i && IsExit(t[j]) :: t[j].pid != t[i].pid)
            && (t[i].EvStarted? ==> forall j | 0 <= j < |t| && j != i && t[j].EvStarted? :: t[j].pid != t[i].pid)
            && (t[i].EvRestarted? ==> i > 0 && t[i - 1].EvCrashed? && t[i - 1].name == t[i].name)
  {
    RunLinked(mode, INIT, run);
    var t := Exec(mode, INIT, run).value.trace;
    GrammarAt(t, i);
    if IsExit(t[i]) {
      assert EvStarted(t[i].name, t[i].pid) in t[..i];
    }
    forall j | 0 <= j < |t| && j != i
      ensures IsExit(t[i]) && IsExit(t[j]) ==> t[j].pid != t[i].pid
      ensures t[i].EvStarted? && t[j].EvStarted? ==> t[j].pid != t[i].pid
    {
      GrammarAt(t, j);
      if i < j { assert t[i] in t[..j]; } else { assert t[j] in t[..i]; }
    }
  }

  /**
   Exactly the reaped children have been reported: nothing is lost between `waitpid` and the
   callback, and nothing invented.
   */
  lemma {:induction false} ReportedExactly(mode: Mode, run: seq<Action>, pid: int)
    requires Exec(mode, INIT, run).Some?
    ensures var s := Exec(mode, INIT, run).value;
            Reported(s.trace, pid) <==> pid in s.children && s.children[pid].life == Reaped
  {
    RunLinked(mode, INIT, run);
  }

  /** No later step reaps a child that is no longer its entry's current one. */
  ghost predicate Orphan(s: World, pid: int) {
    && pid in s.children && s.children[pid].life != Reaped
    && (s.children[pid].parent in s.table ==> s.table[s.children[pid].parent].pid != pid)
  }

  lemma {:induction false} SpawnOrphan(mode: Mode, s: World, name: Name, fork: Option<int>, pid: int)
    requires Orphan(s, pid) && name in s.table && ForkPossible(s, fork)
    ensures Orphan(Spawn(mode, s, name, fork), pid)
  {
  }

  lemma {:induction false} HandleExitOrphan(
      mode: Mode, s: World, name: Name, waitStatus: nat, fork: Option<int>, pid: int)
    requires Orphan(s, pid) && name in s.table && ForkPossible(s, fork)
    ensures Orphan(HandleExit(mode, s, name, waitStatus, fork), pid)
  {
    var r := RecordExit(s, name, waitStatus);
    var e := r.table[name];
    assert Orphan(r, pid);
    if e.exitCode != 0 && e.config.policy != Never && e.restartCount < e.config.maxRestarts {
      SpawnOrphan(mode, Announced(r, name), name, fork, pid);
      assert Orphan(Respawn(mode, r, name, fork), pid);
    }
  }

  lemma {:induction false} ReapOrphan(s: World, name: Name, pid: int)
    requires Linked(s) && Orphan(s, pid) && name in s.table && s.table[name].pid in s.children
    ensures Orphan(Reap(s, name), pid)
  {
  }

  lemma {:induction false} StepOrphan(mode: Mode, s: World, a: Action, pid: int)
    requires Linked(s) && Orphan(s, pid) && Enabled(s, a)
    ensures Orphan(Step(mode, s, a), pid)
  {
    match a
    case MonitorPoll(name, late, fork) =>
      if LifeOf(s, s.table[name]).Zombie? {
        ReapOrphan(s, name, pid);
        HandleExitOrphan(mode, WithMonitor(Reap(s, name), name, Detached), name, LifeOf(s, s.table[name]).waitStatus,
            fork, pid);
      }
    case WatchdogCheck(name, fork) =>
      if LifeOf(s, s.table[name]).Zombie? {
        var w := LifeOf(s, s.table[name]).waitStatus;
        ReapOrphan(s, name, pid);
        HandleExitOrphan(mode, Reap(s, name), name, if mode.decodeTwice then ExitStatus(w) else w, fork, pid);
      }
    case Start(name, fork) =>
      if name in s.table {
        var e := s.table[name];
        SpawnOrphan(mode, s.(table := s.table[name := if mode.resetOnRespawn then e else e.(restartCount := 0)]),
            name, fork, pid);
      }
    case _ =>
  }

  lemma {:induction false} OrphanNeverReported(mode: Mode, s: World, run: seq<Action>, pid: int)
    requires Linked(s) && Orphan(s, pid) && Exec(mode, s, run).Some?
    ensures Orphan(Exec(mode, s, run).value, pid) && !Reported(Exec(mode, s, run).value.trace, pid)
    decreases |run|
  {
    if run != [] {
      StepOrphan(mode, s, run[0], pid);
      StepLinked(mode, s, run[0]);
      OrphanNeverReported(mode, Step(mode, s, run[0]), run[1..], pid);
    }
  }

  /**
   A `start` that is accepted while the previous child has not been reaped (a `stop` returns
   without reaping) loses that child: its exit is never reported, whatever happens later.
   When it has been reaped, its exit has been reported and nothing is lost.
   */
  lemma {:induction false} StartLosesUnreapedChild(
      mode: Mode, before: seq<Action>, name: Name, fork: int, after: seq<Action>)
    requires Exec(mode, INIT, before).Some?
    requires var s := Exec(mode, INIT, before).value;
             && Enabled(s, Start(name, Some(fork))) && name in s.table && s.table[name].status != Running
             && s.table[name].pid in s.children
    requires Exec(mode, INIT, before + [Start(name, Some(fork))] + after).Some?
    ensures var s := Exec(mode, INIT, before).value;
            var end := Exec(mode, INIT, before + [Start(name, Some(fork))] + after).value;
            Reported(end.trace, s.table[name].pid) <==> s.children[s.table[name].pid].life == Reaped
  {
    var s, start := Exec(mode, INIT, before).value, Start(name, Some(fork));
    var pid, t := s.table[name].pid, Step(mode, s, start);
    RunLinked(mode, INIT, before);
    StepLinked(mode, s, start);
    assert before + [start] + after == before + ([start] + after);
    ExecAppend(mode, INIT, before, [start] + after);
    assert ([start] + after)[1..] == after;
    Superseded(mode, s, name, fork);
    if s.children[pid].life == Reaped {
      ReapedForever(mode, t, after, pid);
      RunLinked(mode, t, after);
    } else {
      OrphanNeverReported(mode, t, after, pid);
    }
  }

  /** What an accepted start does to the previous child: nothing, except that its entry forgets it. */
  lemma {:induction false} Superseded(mode: Mode, s: World, name: Name, fork: int)
    requires Linked(s) && Enabled(s, Start(name, Some(fork))) && name in s.table && s.table[name].status != Running
    requires s.table[name].pid in s.children
    ensures var t, pid := Step(mode, s, Start(name, Some(fork))), s.table[name].pid;
            && pid in t.children && t.children[pid] == s.children[pid]
            && (s.children[pid].life != Reaped ==> Orphan(t, pid))
  {
  }

  lemma {:induction false} ReapedForever(mode: Mode, s: World, run: seq<Action>, pid: int)
    requires pid in s.children && s.children[pid].life == Reaped && Exec(mode, s, run).Some?
    ensures var t := Exec(mode, s, run).value; pid in t.children && t.children[pid].life == Reaped
    decreases |run|
  {
    if run != [] {
      var t := Step(mode, s, run[0]);
      assert pid in t.children && t.children[pid].life == Reaped;
      ReapedForever(mode, t, run[1..], pid);
    }
  }

  /** Stopping and starting again while the first child has yet to be reaped. */
  function StopStart(name: Name, config: Config): seq<Action> {
    [Add(name, config), Start(name, Some(1)), StopBegin(name), StopEnd(name)]
  }

  /**
   Such a run exists: `stop` gives up waiting, `start` follows at once, and the first child's exit
   is never reported, whatever comes after.
   */
  lemma {:induction false} StopStartLosesChild(mode: Mode, name: Name, config: Config, after: seq<Action>)
    ensures var run := StopStart(name, config) + [Start(name, Some(2))];
            && Exec(mode, INIT, run).Some?
            && (Exec(mode, INIT, run + after).Some? ==> !Reported(Exec(mode, INIT, run + after).value.trace, 1))
  {
    var before, start := StopStart(name, config), Start(name, Some(2));
    var s := StopStartRuns(mode, name, config);
    ExecAppend(mode, INIT, before, [start]);
    Unroll(mode, s, [start]);
    if Exec(mode, INIT, before + [start] + after).Some? {
      StartLosesUnreapedChild(mode, before, name, 2, after);
    }
  }

  lemma {:induction false} StopStartRuns(mode: Mode, name: Name, config: Config) returns (s: World)
    ensures Exec(mode, INIT, StopStart(name, config)) == Some(s)
    ensures s.lock == None && name in s.table && s.table[name].pid == 1 && s.table[name].status == Status.Stopped
    ensures s.children == map[1 := Child(name, Alive)]
  {
    var run := StopStart(name, config);
    var s1 := Step(mode, INIT, run[0]);
    var s2 := Step(mode, s1, run[1]);
    var s3 := Step(mode, s2, run[2]);
    s := Step(mode, s3, run[3]);
    Unroll(mode, INIT, run);
    Unroll(mode, s1, run[1..]);
    Unroll(mode, s2, run[1..][1..]);
    Unroll(mode, s3, run[1..][1..][1..]);
  }
}
