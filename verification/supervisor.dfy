/**
 The process supervisor as a transition system. API calls, one monitor thread per process, the
 watchdog and the kernel take steps on one table of entries and one set of children.

 `handle_exit` (with the restart it may perform) is one step, and so are a spawn and its STARTED
 event (supervisor_order.dfy takes these two apart); no pid is used twice, and a monitor thread
 is attached to its entry's current child.
 */
module Supervisor {
  import opened Results

  type Name = string

  datatype Policy = Never | OnFailure | Always

  datatype Config = Config(policy: Policy, maxRestarts: nat, timeoutSeconds: nat)

  datatype Status = Stopped | Starting | Running | Restarting | Failed

  /** Where an entry's monitor thread is: returned, at the head of its loop, or past the `running` test. */
  datatype Monitor = Detached | Waiting | Polling

  datatype Entry = Entry(
    config: Config, status: Status, pid: int, exitCode: nat, restartCount: nat, running: bool, monitor: Monitor)

  datatype Life = Alive | Zombie(waitStatus: nat) | Reaped

  datatype Child = Child(parent: Name, life: Life)

  datatype Event =
    | EvStarted(name: Name, pid: int)
    | EvStopped(name: Name, pid: int)
    | EvCrashed(name: Name, pid: int, code: nat)
    | EvRestarted(name: Name, attempt: nat)

  /** `lock` names the process a `stop` call is waiting for while it holds the table's mutex. */
  datatype World = World(table: map<Name, Entry>, children: map<int, Child>, lock: Option<Name>, trace: seq<Event>)

  const INIT := World(map[], map[], None, [])

  /**
   The two places where the code departs from its evident intent: `spawn_process` zeroes the
   restart count on automatic restarts too, and the watchdog decodes the wait status before
   `handle_exit` decodes it again.
   */
  datatype Mode = Mode(resetOnRespawn: bool, decodeTwice: bool)

  const AS_WRITTEN := Mode(true, true)
  const INTENDED := Mode(false, false)

  /**
   `WEXITSTATUS`: the second byte of a wait status. A child killed by a signal has 0 there (see
   supervisor_exits.dfy).
   */
  function ExitStatus(waitStatus: nat): nat {
    waitStatus / 256 % 256
  }

  // ---- what the functions of the supervisor do ----

  function NewEntry(config: Config): Entry {
    Entry(config, Stopped, -1, 0, 0, false, Detached)
  }

  /** What `waitpid` would find for an entry; a pid that is not a child reads as already reaped. */
  function LifeOf(s: World, e: Entry): Life {
    if e.pid in s.children then s.children[e.pid].life else Reaped
  }

  /** `fork` fails, or returns a pid never used before. */
  predicate ForkPossible(s: World, fork: Option<int>) {
    fork.Some? ==> fork.value > 0 && fork.value !in s.children
  }

  function Spawn(mode: Mode, s: World, name: Name, fork: Option<int>): World
    requires name in s.table
  {
    var e := s.table[name];
    var count := if mode.resetOnRespawn then 0 else e.restartCount;
    match fork
    case None => s.(table := s.table[name := e.(status := Failed, restartCount := count)])
    case Some(pid) =>
      var running := e.(status := Running, restartCount := count, pid := pid, running := true, monitor := Waiting);
      s.(table := s.table[name := running],
         children := s.children[pid := Child(name, Alive)],
         trace := s.trace + [EvStarted(name, pid)])
  }

  function ExitEvent(name: Name, pid: int, code: nat): Event {
    if code == 0 then EvStopped(name, pid) else EvCrashed(name, pid, code)
  }

  /** The first half of `handle_exit`: record the exit and report it. */
  function RecordExit(s: World, name: Name, waitStatus: nat): World
    requires name in s.table
  {
    var e := s.table[name];
    var code := ExitStatus(waitStatus);
    s.(table := s.table[name := e.(running := false, exitCode := code, status := Stopped)],
       trace := s.trace + [ExitEvent(name, e.pid, code)])
  }

  /** An automatic restart is counted and announced... */
  function Announced(s: World, name: Name): World
    requires name in s.table
  {
    var e := s.table[name];
    var again := e.(restartCount := e.restartCount + 1, status := Restarting);
    s.(table := s.table[name := again], trace := s.trace + [EvRestarted(name, again.restartCount)])
  }

  /** ...before the process is spawned. */
  function Respawn(mode: Mode, s: World, name: Name, fork: Option<int>): World
    requires name in s.table
  {
    Spawn(mode, Announced(s, name), name, fork)
  }

  /** The second half: the restart policy. */
  function RestartOrNot(mode: Mode, s: World, name: Name, fork: Option<int>): World
    requires name in s.table
  {
    var e := s.table[name];
    if e.exitCode == 0 || e.config.policy == Never then s
    else if e.restartCount < e.config.maxRestarts then Respawn(mode, s, name, fork)
    else
      s.(table := s.table[name := e.(status := Failed)])
  }

  function HandleExit(mode: Mode, s: World, name: Name, waitStatus: nat, fork: Option<int>): World
    requires name in s.table
  {
    RestartOrNot(mode, RecordExit(s, name, waitStatus), name, fork)
  }

  /** `waitpid` has returned the status of the entry's child. */
  function Reap(s: World, name: Name): World
    requires name in s.table && s.table[name].pid in s.children
  {
    var pid := s.table[name].pid;
    s.(children := s.children[pid := s.children[pid].(life := Reaped)])
  }

  function WithMonitor(s: World, name: Name, monitor: Monitor): World
    requires name in s.table
  {
    s.(table := s.table[name := s.table[name].(monitor := monitor)])
  }

  /** The monitor finds its child dead: the thread ends in `handle_exit`. */
  function MonitorReap(mode: Mode, s: World, name: Name, waitStatus: nat, fork: Option<int>): World
    requires name in s.table && s.table[name].pid in s.children
  {
    HandleExit(mode, WithMonitor(Reap(s, name), name, Detached), name, waitStatus, fork)
  }

  /** The watchdog finds it dead. */
  function WatchdogReap(mode: Mode, s: World, name: Name, waitStatus: nat, fork: Option<int>): World
    requires name in s.table && s.table[name].pid in s.children
  {
    HandleExit(mode, Reap(s, name), name, if mode.decodeTwice then ExitStatus(waitStatus) else waitStatus, fork)
  }

  // ---- steps ----

  datatype Action =
    | Add(name: Name, config: Config)
    | Start(name: Name, fork: Option<int>)
    | StopBegin(name: Name)
    | StopEnd(name: Name)
    | StopAll
    | Exit(pid: int, waitStatus: nat)
    | MonitorWake(name: Name)
    | MonitorPoll(name: Name, late: bool, fork: Option<int>)
    | WatchdogCheck(name: Name, fork: Option<int>)

  /** API calls and the watchdog need the mutex; monitor threads and the kernel do not. */
  predicate Enabled(s: World, a: Action) {
    match a
    case Add(_, _) => s.lock == None
    case Start(_, fork) => s.lock == None && ForkPossible(s, fork)
    case StopBegin(_) => s.lock == None
    case StopEnd(name) => s.lock == Some(name) && name in s.table
    case StopAll => s.lock == None
    case Exit(pid, _) => pid in s.children && s.children[pid].life == Alive
    case MonitorWake(name) => name in s.table && s.table[name].monitor == Waiting
    case MonitorPoll(name, _, fork) => name in s.table && s.table[name].monitor == Polling && ForkPossible(s, fork)
    case WatchdogCheck(name, fork) => s.lock == None && name in s.table && ForkPossible(s, fork)
  }

  function StartStep(mode: Mode, s: World, name: Name, fork: Option<int>): World {
    if name !in s.table || s.table[name].status == Running then s
    else
      var e := s.table[name];
      var ready := if mode.resetOnRespawn then e else e.(restartCount := 0);
      Spawn(mode, s.(table := s.table[name := ready]), name, fork)
  }

  function StopBeginStep(s: World, name: Name): World {
    if name !in s.table || s.table[name].status != Running then s
    else s.(table := s.table[name := s.table[name].(running := false)], lock := Some(name))
  }

  /** The wait is over: the status has left RUNNING, or the timeout has passed and SIGKILL is sent. */
  function StopEndStep(s: World, name: Name): World
    requires name in s.table
  {
    s.(table := s.table[name := s.table[name].(status := Stopped)], lock := None)
  }

  function StopAllStep(s: World): World {
    s.(table := map n | n in s.table ::
                  if s.table[n].status == Running then s.table[n].(running := false) else s.table[n])
  }

  function MonitorWakeStep(s: World, name: Name): World
    requires name in s.table
  {
    WithMonitor(s, name, if s.table[name].running then Polling else Detached)
  }

  /** One pass of the loop after the `running` test; `late` says whether the process has outlived its timeout. */
  function MonitorPollStep(mode: Mode, s: World, name: Name, late: bool, fork: Option<int>): World
    requires name in s.table
  {
    var e := s.table[name];
    var life := LifeOf(s, e);
    if life.Zombie? then MonitorReap(mode, s, name, life.waitStatus, fork)
    else if late && e.config.timeoutSeconds > 0 then WithMonitor(s, name, Detached)
    else WithMonitor(s, name, Waiting)
  }

  function WatchdogStep(mode: Mode, s: World, name: Name, fork: Option<int>): World
    requires name in s.table
  {
    var e := s.table[name];
    var life := LifeOf(s, e);
    if e.status == Running && e.pid > 0 && life.Zombie? then WatchdogReap(mode, s, name, life.waitStatus, fork)
    else s
  }

  function Step(mode: Mode, s: World, a: Action): World
    requires Enabled(s, a)
  {
    match a
    case Add(name, config) => if name in s.table then s else s.(table := s.table[name := NewEntry(config)])
    case Start(name, fork) => StartStep(mode, s, name, fork)
    case StopBegin(name) => StopBeginStep(s, name)
    case StopEnd(name) => StopEndStep(s, name)
    case StopAll => StopAllStep(s)
    case Exit(pid, waitStatus) => s.(children := s.children[pid := s.children[pid].(life := Zombie(waitStatus))])
    case MonitorWake(name) => MonitorWakeStep(s, name)
    case MonitorPoll(name, late, fork) => MonitorPollStep(mode, s, name, late, fork)
    case WatchdogCheck(name, fork) => WatchdogStep(mode, s, name, fork)
  }

  /** The child a step reaps, if it does. */
  function Reaps(s: World, a: Action): Option<int>
    requires Enabled(s, a)
  {
    match a
    case MonitorPoll(name, _, _) => if LifeOf(s, s.table[name]).Zombie? then Some(s.table[name].pid) else None
    case WatchdogCheck(name, _) =>
      var e := s.table[name];
      if e.status == Running && e.pid > 0 && LifeOf(s, e).Zombie? then Some(e.pid) else None
    case _ => None
  }

  /** The state after a run, if every step of it was possible. */
  function Exec(mode: Mode, s: World, run: seq<Action>): Option<World>
    decreases |run|
  {
    if run == [] then Some(s)
    else if Enabled(s, run[0]) then Exec(mode, Step(mode, s, run[0]), run[1..])
    else None
  }

  lemma {:induction false} ExecAppend(mode: Mode, s: World, first: seq<Action>, second: seq<Action>)
    requires Exec(mode, s, first).Some?
    ensures Exec(mode, s, first + second) == Exec(mode, Exec(mode, s, first).value, second)
    decreases |first|
  {
    if first == [] {
      assert first + second == second;
    } else {
      ExecAppend(mode, Step(mode, s, first[0]), first[1..], second);
      assert (first + second)[0] == first[0] && (first + second)[1..] == first[1..] + second;
    }
  }

  /** One step of a run that is known. */
  lemma {:induction false} Unroll(mode: Mode, s: World, run: seq<Action>)
    requires run != [] && Enabled(s, run[0])
    ensures Exec(mode, s, run) == Exec(mode, Step(mode, s, run[0]), run[1..])
    ensures |run| == 1 ==> Exec(mode, s, run) == Some(Step(mode, s, run[0]))
  {
  }

  // ---- the supervisor's own code ----

  /**
   The functions as written, field by field; `mode` selects the two disputed lines. `entry` is
   the source's reference to the table's entry, written back when another function takes over.
   */
  class ProcessSupervisor {
    const mode: Mode
    var table: map<Name, Entry>
    var children: map<int, Child>
    var lock: Option<Name>
    var trace: seq<Event>

    function View(): World
      reads this
    {
      World(table, children, lock, trace)
    }

    constructor (mode: Mode)
      ensures this.mode == mode && View() == INIT
    {
      this.mode := mode;
      table, children, lock, trace := map[], map[], None, [];
    }

    method AddProcess(name: Name, config: Config) returns (ok: bool)
      requires lock == None
      modifies this
      ensures ok == (name !in old(table))
      ensures View() == Step(mode, old(View()), Add(name, config))
    {
      if name in table {
        return false;
      }
      table := table[name := NewEntry(config)];
      return true;
    }

    method EmitEvent(e: Event)
      modifies this`trace
      ensures trace == old(trace) + [e]
    {
      trace := trace + [e];
    }

    method SpawnProcess(name: Name, fork: Option<int>) returns (ok: bool)
      requires name in table
      modifies this
      ensures ok == fork.Some?
      ensures View() == Spawn(mode, old(View()), name, fork)
    {
      var entry := table[name];
      entry := entry.(status := Starting);
      if mode.resetOnRespawn {
        entry := entry.(restartCount := 0);
      }
      if fork == None {
        entry := entry.(status := Failed);
        table := table[name := entry];
        return false;
      }
      var pid := fork.value;
      children := children[pid := Child(name, Alive)];
      entry := entry.(pid := pid);
      entry := entry.(status := Running);
      entry := entry.(running := true);
      entry := entry.(monitor := Waiting);
      table := table[name := entry];
      EmitEvent(EvStarted(name, pid));
      return true;
    }

    method HandleExitOf(name: Name, waitStatus: nat, fork: Option<int>)
      requires name in table
      modifies this
      ensures View() == HandleExit(mode, old(View()), name, waitStatus, fork)
    {
      var entry := table[name];
      entry := entry.(running := false);
      entry := entry.(exitCode := ExitStatus(waitStatus));
      entry := entry.(status := Stopped);
      var success := entry.exitCode == 0;
      EmitEvent(if success then EvStopped(name, entry.pid) else EvCrashed(name, entry.pid, entry.exitCode));
      ghost var recorded := RecordExit(old(View()), name, waitStatus);
      assert recorded.table == table[name := entry] && recorded.trace == trace;
      if !success && entry.config.policy != Never {
        if entry.restartCount < entry.config.maxRestarts {
          entry := entry.(restartCount := entry.restartCount + 1);
          entry := entry.(status := Restarting);
          EmitEvent(EvRestarted(name, entry.restartCount));
          table := table[name := entry];
          assert View() == Announced(recorded, name);
          var _ := SpawnProcess(name, fork);
          return;
        }
        entry := entry.(status := Failed);
      }
      table := table[name := entry];
    }

    method StartProcess(name: Name, fork: Option<int>) returns (ok: bool)
      requires Enabled(View(), Start(name, fork))
      modifies this
      ensures ok == (name in old(table) && old(table)[name].status != Running && fork.Some?)
      ensures View() == Step(mode, old(View()), Start(name, fork))
    {
      if name !in table || table[name].status == Running {
        return false;
      }
      if !mode.resetOnRespawn {
        table := table[name := table[name].(restartCount := 0)];
      }
      ok := SpawnProcess(name, fork);
    }

    /** `stop` up to the wait; true if it is now waiting with the mutex held. */
    method BeginStop(name: Name) returns (waiting: bool)
      requires lock == None
      modifies this
      ensures waiting == (lock == Some(name))
      ensures View() == Step(mode, old(View()), StopBegin(name))
    {
      if name !in table || table[name].status != Running {
        return false;
      }
      table := table[name := table[name].(running := false)];
      lock := Some(name);
      return true;
    }

    /** `stop` after the wait. */
    method EndStop(name: Name)
      requires Enabled(View(), StopEnd(name))
      modifies this
      ensures View() == Step(mode, old(View()), StopEnd(name))
    {
      table := table[name := table[name].(status := Stopped)];
      lock := None;
    }

    method StopEverything()
      requires lock == None
      modifies this
      ensures View() == Step(mode, old(View()), StopAll)
    {
      var todo := table.Keys;
      while todo != {}
        invariant todo <= table.Keys == old(table).Keys
        invariant children == old(children) && lock == old(lock) && trace == old(trace)
        invariant forall n | n in table ::
                    table[n] == if n in todo then old(table)[n] else StopAllStep(old(View())).table[n]
        decreases todo
      {
        var n :| n in todo;
        if table[n].status == Running {
          table := table[n := table[n].(running := false)];
        }
        todo := todo - {n};
      }
      assert table == StopAllStep(old(View())).table;
    }

    /** The monitor thread's test at the head of its loop. */
    method MonitorHead(name: Name)
      requires Enabled(View(), MonitorWake(name))
      modifies this
      ensures View() == Step(mode, old(View()), MonitorWake(name))
    {
      table := table[name := table[name].(monitor := if table[name].running then Polling else Detached)];
    }

    /** The rest of one pass: `waitpid`, then the timeout. */
    method MonitorBody(name: Name, late: bool, fork: Option<int>)
      requires Enabled(View(), MonitorPoll(name, late, fork))
      modifies this
      ensures View() == Step(mode, old(View()), MonitorPoll(name, late, fork))
    {
      var life := LifeOf(View(), table[name]);
      if life.Zombie? {
        var pid := table[name].pid;
        children := children[pid := children[pid].(life := Reaped)];
        table := table[name := table[name].(monitor := Detached)];
        HandleExitOf(name, life.waitStatus, fork);
        return;
      }
      if table[name].config.timeoutSeconds > 0 && late {
        table := table[name := table[name].(monitor := Detached)];
        return;
      }
      table := table[name := table[name].(monitor := Waiting)];
    }

    /** The watchdog's look at one entry. */
    method WatchdogEntry(name: Name, fork: Option<int>)
      requires Enabled(View(), WatchdogCheck(name, fork))
      modifies this
      ensures View() == Step(mode, old(View()), WatchdogCheck(name, fork))
    {
      if table[name].status == Running && table[name].pid > 0 {
        var life := LifeOf(View(), table[name]);
        if life.Zombie? {
          var pid := table[name].pid;
          children := children[pid := children[pid].(life := Reaped)];
          HandleExitOf(name, if mode.decodeTwice then ExitStatus(life.waitStatus) else life.waitStatus, fork);
        }
      }
    }
  }
}
