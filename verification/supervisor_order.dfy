/**
 The order of events as a callback sees it. `spawn_process` creates the monitor thread before
 it emits STARTED, and a monitor thread takes no mutex: here a spawn and its announcement are
 two moves, and anything the mutex permits may come between them.
 */
module SupervisorOrder {
  import opened Results
  import opened Supervisor
  import opened SupervisorTrace

  /** The events emitted so far, and the children whose STARTED event is still to come. */
  datatype Board = Board(seen: seq<Event>, owed: map<int, Name>)

  /** `holder` is the child whose `start`, or whose watchdog restart, still holds the table's mutex. */
  datatype Fine = Fine(world: World, board: Board, holder: Option<int>)

  const FINE_INIT := Fine(INIT, Board([], map[]), None)

  datatype Move = Act(action: Action) | Announce(pid: int)

  function Post(b: Board, e: Event): Board {
    if e.EvStarted? then b.(owed := b.owed[e.pid := e.name]) else b.(seen := b.seen + [e])
  }

  function PostAll(b: Board, news: seq<Event>): Board
    decreases |news|
  {
    if news == [] then b else PostAll(Post(b, news[0]), news[1..])
  }

  /** What a step adds to the trace. */
  function News(s: World, t: World): seq<Event> {
    if |s.trace| <= |t.trace| then t.trace[|s.trace|..] else []
  }

  predicate TakesMutex(a: Action) {
    a.Add? || a.Start? || a.StopBegin? || a.StopAll? || a.WatchdogCheck?
  }

  predicate FineEnabled(f: Fine, m: Move) {
    match m
    case Act(a) => Enabled(f.world, a) && (TakesMutex(a) ==> f.holder == None)
    case Announce(pid) => pid in f.board.owed
  }

  function FineStep(mode: Mode, f: Fine, m: Move): Fine
    requires FineEnabled(f, m)
  {
    match m
    case Act(a) =>
      var t := Step(mode, f.world, a);
      var news := News(f.world, t);
      var last := if news == [] then None else Some(news[|news| - 1]);
      var holder := if TakesMutex(a) && last.Some? && last.value.EvStarted? then Some(last.value.pid) else f.holder;
      Fine(t, PostAll(f.board, news), holder)
    case Announce(pid) =>
      var b := f.board;
      var holder := if f.holder == Some(pid) then None else f.holder;
      Fine(f.world, Board(b.seen + [EvStarted(b.owed[pid], pid)], b.owed - {pid}), holder)
  }

  function FineExec(mode: Mode, f: Fine, run: seq<Move>): Option<Fine>
    decreases |run|
  {
    if run == [] then Some(f)
    else if FineEnabled(f, run[0]) then FineExec(mode, FineStep(mode, f, run[0]), run[1..])
    else None
  }

  // ---- what a callback may rely on ----

  /** No exit is emitted before its child's start. */
  predicate Ordered(seen: seq<Event>) {
    forall i | 0 <= i < |seen| && IsExit(seen[i]) :: EvStarted(seen[i].name, seen[i].pid) in seen[..i]
  }

  /** No child is started or exits twice. */
  ghost predicate Once(seen: seq<Event>) {
    && (forall i, j | 0 <= i < j < |seen| && IsExit(seen[i]) && IsExit(seen[j]) :: seen[i].pid != seen[j].pid)
    && (forall i, j | 0 <= i < j < |seen| && seen[i].EvStarted? && seen[j].EvStarted? :: seen[i].pid != seen[j].pid)
  }

  predicate RestartsFollowCrashes(seen: seq<Event>) {
    forall i | 0 <= i < |seen| && seen[i].EvRestarted? ::
      i > 0 && seen[i - 1].EvCrashed? && seen[i - 1].name == seen[i].name
  }

  /** Nothing is lost or invented: the events emitted and those owed are those of the trace. */
  ghost predicate Conserved(trace: seq<Event>, b: Board) {
    && (forall e: Event | !e.EvStarted? :: e in b.seen <==> e in trace)
    && (forall n, p :: EvStarted(n, p) in trace <==> EvStarted(n, p) in b.seen || (p in b.owed && b.owed[p] == n))
    && (forall p | p in b.owed :: !SpawnedBefore(b.seen, p))
  }

  predicate PromptMove(f: Fine, m: Move)
    requires FineEnabled(f, m)
  {
    m.Act? && Reaps(f.world, m.action).Some? ==> Reaps(f.world, m.action).value !in f.board.owed
  }

  /** No child is reaped before its start has been announced. */
  predicate Prompt(mode: Mode, f: Fine, run: seq<Move>)
    decreases |run|
  {
    run == [] || !FineEnabled(f, run[0]) || (PromptMove(f, run[0]) && Prompt(mode, FineStep(mode, f, run[0]), run[1..]))
  }

  // ---- one event ----

  lemma {:induction false} PostConserves(trace: seq<Event>, b: Board, e: Event)
    requires Conserved(trace, b) && Allowed(trace, e)
    ensures Conserved(trace + [e], Post(b, e))
  {
    if e.EvStarted? {
      assert !SpawnedBefore(b.seen, e.pid);
    } else {
      StillUnspawned(b, e);
    }
  }

  lemma {:induction false} StillUnspawned(b: Board, e: Event)
    requires !e.EvStarted? && forall p | p in b.owed :: !SpawnedBefore(b.seen, p)
    ensures forall p | p in b.owed :: !SpawnedBefore(b.seen + [e], p)
  {
  }

  lemma {:induction false} PostOnce(trace: seq<Event>, b: Board, e: Event)
    requires Conserved(trace, b) && Allowed(trace, e) && Once(b.seen)
    ensures Once(Post(b, e).seen)
  {
    if IsExit(e) {
      forall i | 0 <= i < |b.seen| && IsExit(b.seen[i])
        ensures b.seen[i].pid != e.pid
      {
        assert b.seen[i] in b.seen && b.seen[i] in trace;
      }
    }
  }

  lemma {:induction false} OrderedAppend(seen: seq<Event>, e: Event)
    ensures Ordered(seen + [e]) <==> Ordered(seen) && (IsExit(e) ==> EvStarted(e.name, e.pid) in seen)
  {
    var more := seen + [e];
    assert more[..|seen|] == seen;
    assert forall i | 0 <= i < |seen| :: more[..i] == seen[..i] && more[i] == seen[i];
    if Ordered(more) {
      assert more[|seen|] == e;
      forall i | 0 <= i < |seen| && IsExit(seen[i])
        ensures EvStarted(seen[i].name, seen[i].pid) in seen[..i]
      {
        assert IsExit(more[i]);
      }
    }
  }

  /** An exit comes in order exactly when its child's announcement is not owed. */
  lemma {:induction false} PostOrders(trace: seq<Event>, b: Board, e: Event)
    requires Conserved(trace, b) && Allowed(trace, e)
    ensures Ordered(Post(b, e).seen) <==> Ordered(b.seen) && !(IsExit(e) && e.pid in b.owed)
  {
    if !e.EvStarted? {
      OrderedAppend(b.seen, e);
    }
    if IsExit(e) {
      assert EvStarted(e.name, e.pid) in trace;
      if EvStarted(e.name, e.pid) in b.seen {
        assert SpawnedBefore(b.seen, e.pid);
      }
    }
  }

  // ---- the events of one step ----

  /** Every exit among the news is of a child announced by then. */
  predicate PromptNews(b: Board, news: seq<Event>)
    decreases |news|
  {
    news == [] || (!(IsExit(news[0]) && news[0].pid in b.owed) && PromptNews(Post(b, news[0]), news[1..]))
  }

  lemma {:induction false} NoExitsPrompt(b: Board, news: seq<Event>)
    requires forall i | 0 <= i < |news| :: !IsExit(news[i])
    ensures PromptNews(b, news)
    decreases |news|
  {
    if news != [] {
      NoExitsPrompt(Post(b, news[0]), news[1..]);
    }
  }

  ghost predicate Sound(trace: seq<Event>, b: Board) {
    Conserved(trace, b) && Once(b.seen) && RestartsFollowCrashes(b.seen)
  }

  /** The last event of the trace is also the last one emitted. */
  predicate SameLast(trace: seq<Event>, b: Board) {
    trace != [] && b.seen != [] && b.seen[|b.seen| - 1] == trace[|trace| - 1]
  }

  lemma {:induction false} PostSound(trace: seq<Event>, b: Board, e: Event)
    requires Sound(trace, b) && Allowed(trace, e) && (e.EvRestarted? ==> SameLast(trace, b))
    ensures Sound(trace + [e], Post(b, e))
    ensures e.EvCrashed? ==> SameLast(trace + [e], Post(b, e))
  {
    PostConserves(trace, b, e);
    PostOnce(trace, b, e);
  }

  lemma {:induction false} PostAllSound(trace: seq<Event>, b: Board, news: seq<Event>)
    requires Sound(trace, b) && Grammar(trace + news)
    requires news != [] && news[0].EvRestarted? ==> SameLast(trace, b)
    ensures Sound(trace + news, PostAll(b, news))
    ensures Ordered(PostAll(b, news).seen) <==> Ordered(b.seen) && PromptNews(b, news)
    decreases |news|
  {
    if news == [] {
      assert trace + news == trace;
    } else {
      var e, rest := news[0], news[1..];
      assert trace + news == trace + [e] + rest;
      GrammarAt(trace + news, |trace|);
      assert (trace + news)[..|trace|] == trace;
      PostSound(trace, b, e);
      PostOrders(trace, b, e);
      if rest != [] {
        GrammarAt(trace + news, |trace| + 1);
        assert (trace + news)[..|trace| + 1] == trace + [e];
      }
      PostAllSound(trace + [e], Post(b, e), rest);
    }
  }

  function ExitNews(s: World, name: Name, waitStatus: nat, fork: Option<int>): seq<Event>
    requires name in s.table
  {
    var e := s.table[name];
    [ExitEvent(name, e.pid, ExitStatus(waitStatus))]
    + if ExitStatus(waitStatus) == 0 || e.config.policy == Never || e.restartCount >= e.config.maxRestarts then []
      else [EvRestarted(name, e.restartCount + 1)] + if fork.Some? then [EvStarted(name, fork.value)] else []
  }

  lemma {:induction false} HandleExitNews(mode: Mode, s: World, name: Name, waitStatus: nat, fork: Option<int>)
    requires name in s.table
    ensures HandleExit(mode, s, name, waitStatus, fork).trace == s.trace + ExitNews(s, name, waitStatus, fork)
  {
    var e := s.table[name];
    var exit, again := [ExitEvent(name, e.pid, ExitStatus(waitStatus))], [EvRestarted(name, e.restartCount + 1)];
    if fork.Some? {
      assert s.trace + exit + again + [EvStarted(name, fork.value)]
          == s.trace + (exit + (again + [EvStarted(name, fork.value)]));
    }
    assert s.trace + exit + again == s.trace + (exit + again);
  }

  /** A step appends to the trace: an exit, first, exactly when it reaps. */
  lemma {:induction false} StepNews(mode: Mode, s: World, a: Action)
    requires Enabled(s, a)
    ensures var t, news := Step(mode, s, a), News(s, Step(mode, s, a));
            && t.trace == s.trace + news
            && (news != [] ==> !news[0].EvRestarted?)
            && (Reaps(s, a).Some? <==> news != [] && IsExit(news[0]))
            && (Reaps(s, a).Some? ==> news[0].pid == Reaps(s, a).value)
            && forall i | 0 < i < |news| :: !IsExit(news[i])
  {
    match a
    case MonitorPoll(name, _, fork) =>
      if Reaps(s, a).Some? {
        HandleExitNews(mode, WithMonitor(Reap(s, name), name, Detached), name, LifeOf(s, s.table[name]).waitStatus,
            fork);
      }
    case WatchdogCheck(name, fork) =>
      if Reaps(s, a).Some? {
        var w := LifeOf(s, s.table[name]).waitStatus;
        HandleExitNews(mode, Reap(s, name), name, if mode.decodeTwice then ExitStatus(w) else w, fork);
      }
    case _ =>
  }

  /** Only the first event of a step can be an exit, so what is owed when the step begins decides. */
  lemma {:induction false} PromptStep(mode: Mode, f: Fine, a: Action)
    requires FineEnabled(f, Act(a))
    ensures PromptNews(f.board, News(f.world, Step(mode, f.world, a))) <==> PromptMove(f, Act(a))
  {
    var news := News(f.world, Step(mode, f.world, a));
    StepNews(mode, f.world, a);
    if news != [] {
      NoExitsPrompt(Post(f.board, news[0]), news[1..]);
    }
  }

  lemma {:induction false} ActSound(mode: Mode, f: Fine, a: Action)
    requires FineEnabled(f, Act(a)) && Linked(f.world) && Sound(f.world.trace, f.board)
    ensures var g := FineStep(mode, f, Act(a));
            && Linked(g.world) && Sound(g.world.trace, g.board)
            && (Ordered(g.board.seen) <==> Ordered(f.board.seen) && PromptMove(f, Act(a)))
  {
    var t := Step(mode, f.world, a);
    var news := News(f.world, t);
    StepLinked(mode, f.world, a);
    StepNews(mode, f.world, a);
    PostAllSound(f.world.trace, f.board, news);
    PromptStep(mode, f, a);
    var g := FineStep(mode, f, Act(a));
    assert g.world == t && g.board == PostAll(f.board, news);
  }

  lemma {:induction false} AnnounceSound(trace: seq<Event>, b: Board, pid: int)
    requires Sound(trace, b) && pid in b.owed
    ensures var c := Board(b.seen + [EvStarted(b.owed[pid], pid)], b.owed - {pid});
            Sound(trace, c) && (Ordered(c.seen) <==> Ordered(b.seen))
  {
    var e := EvStarted(b.owed[pid], pid);
    OrderedAppend(b.seen, e);
    var c := Board(b.seen + [e], b.owed - {pid});
    forall p | p in c.owed
      ensures !SpawnedBefore(c.seen, p)
    {
      assert !SpawnedBefore(b.seen, p);
    }
    forall i | 0 <= i < |b.seen| && b.seen[i].EvStarted?
      ensures b.seen[i].pid != pid
    {
      assert b.seen[i] in b.seen && !SpawnedBefore(b.seen, pid);
    }
    assert Once(c.seen);
    forall n, p
      ensures EvStarted(n, p) in trace <==> EvStarted(n, p) in c.seen || (p in c.owed && c.owed[p] == n)
    {
      assert EvStarted(n, p) in c.seen <==> EvStarted(n, p) in b.seen || EvStarted(n, p) == e;
    }
  }

  // ---- every run ----

  function Actions(run: seq<Move>): seq<Action> {
    if run == [] then []
    else if run[0].Act? then [run[0].action] + Actions(run[1..])
    else Actions(run[1..])
  }

  /** Every fine run is a run of the supervisor with the announcements left out. */
  lemma {:induction false} FineRefines(mode: Mode, f: Fine, run: seq<Move>)
    requires FineExec(mode, f, run).Some?
    ensures Exec(mode, f.world, Actions(run)) == Some(FineExec(mode, f, run).value.world)
    decreases |run|
  {
    if run != [] {
      FineRefines(mode, FineStep(mode, f, run[0]), run[1..]);
    }
  }

  lemma {:induction false} MoveSound(mode: Mode, f: Fine, m: Move)
    requires FineEnabled(f, m) && Linked(f.world) && Sound(f.world.trace, f.board)
    ensures var g := FineStep(mode, f, m);
            && Linked(g.world) && Sound(g.world.trace, g.board)
            && (Ordered(g.board.seen) <==> Ordered(f.board.seen) && PromptMove(f, m))
  {
    match m
    case Act(a) => ActSound(mode, f, a);
    case Announce(pid) => AnnounceSound(f.world.trace, f.board, pid);
  }

  lemma {:induction false} FineRunSound(mode: Mode, f: Fine, run: seq<Move>)
    requires Linked(f.world) && Sound(f.world.trace, f.board) && FineExec(mode, f, run).Some?
    ensures var g := FineExec(mode, f, run).value; Linked(g.world) && Sound(g.world.trace, g.board)
    ensures Ordered(FineExec(mode, f, run).value.board.seen) <==> Ordered(f.board.seen) && Prompt(mode, f, run)
    decreases |run|
  {
    if run != [] {
      MoveSound(mode, f, run[0]);
      FineRunSound(mode, FineStep(mode, f, run[0]), run[1..]);
    }
  }

  /**
   What a callback sees in any interleaving: each start and each exit at most once, an exit
   exactly for the children reaped, and a restart directly after the crash it answers. An exit
   never comes before its start exactly when no child was reaped before its start was announced.
   */
  lemma {:induction false} SeenOrder(mode: Mode, run: seq<Move>)
    requires FineExec(mode, FINE_INIT, run).Some?
    ensures var f := FineExec(mode, FINE_INIT, run).value;
            && Once(f.board.seen) && RestartsFollowCrashes(f.board.seen)
            && (Ordered(f.board.seen) <==> Prompt(mode, FINE_INIT, run))
  {
    FineRunSound(mode, FINE_INIT, run);
  }

  // ---- children that live to see their announcement ----

  /** No child dies while its announcement is owed. */
  predicate DeathsAnnounced(mode: Mode, f: Fine, run: seq<Move>)
    decreases |run|
  {
    run == [] || !FineEnabled(f, run[0])
    || (!(run[0].Act? && run[0].action.Exit? && run[0].action.pid in f.board.owed)
        && DeathsAnnounced(mode, FineStep(mode, f, run[0]), run[1..]))
  }

  ghost predicate OwedAlive(s: World, owed: map<int, Name>) {
    forall p | p in owed :: p in s.children && s.children[p].life == Alive
  }

  /** A living child lives on unless it exits, and new children live. */
  lemma {:induction false} LivesOn(mode: Mode, s: World, a: Action, pid: int)
    requires Linked(s) && Enabled(s, a) && !(a.Exit? && a.pid == pid)
    requires pid in s.children ==> s.children[pid].life == Alive
    ensures var t := Step(mode, s, a); pid in t.children ==> t.children[pid].life == Alive
  {
  }

  /** Only starts among the news are added to what is owed. */
  lemma {:induction false} PostAllOwes(b: Board, news: seq<Event>, pid: int)
    requires pid in PostAll(b, news).owed
    ensures pid in b.owed || SpawnedBefore(news, pid)
    decreases |news|
  {
    if news != [] {
      PostAllOwes(Post(b, news[0]), news[1..], pid);
      if SpawnedBefore(news[1..], pid) {
        var e :| e in news[1..] && e.EvStarted? && e.pid == pid;
        assert e in news;
      } else if pid !in b.owed {
        assert news[0] in news;
      }
    }
  }

  lemma {:induction false} ActKeepsAlive(mode: Mode, f: Fine, a: Action)
    requires FineEnabled(f, Act(a)) && Linked(f.world) && OwedAlive(f.world, f.board.owed)
    requires !(a.Exit? && a.pid in f.board.owed)
    ensures var g := FineStep(mode, f, Act(a)); OwedAlive(g.world, g.board.owed)
  {
    var s, t := f.world, Step(mode, f.world, a);
    var news := News(s, t);
    StepNews(mode, s, a);
    StepLinked(mode, s, a);
    forall p | p in PostAll(f.board, news).owed
      ensures p in t.children && t.children[p].life == Alive
    {
      PostAllOwes(f.board, news, p);
      ChildrenSpawned(s, p);
      ChildrenSpawned(t, p);
      SpawnedByNews(s.trace, news, p);
      LivesOn(mode, s, a, p);
    }
  }

  lemma {:induction false} SpawnedByNews(past: seq<Event>, news: seq<Event>, pid: int)
    requires Grammar(past + news)
    ensures SpawnedBefore(past + news, pid) <==> SpawnedBefore(past, pid) || SpawnedBefore(news, pid)
    ensures !(SpawnedBefore(past, pid) && SpawnedBefore(news, pid))
  {
    if SpawnedBefore(news, pid) {
      StartIsNew(past, news, pid);
    }
  }

  /** A pid started by the news was nobody's before. */
  lemma {:induction false} StartIsNew(past: seq<Event>, news: seq<Event>, pid: int)
    requires Grammar(past + news) && SpawnedBefore(news, pid)
    ensures !SpawnedBefore(past, pid)
  {
    var k :| 0 <= k < |news| && news[k].EvStarted? && news[k].pid == pid;
    GrammarAt(past + news, |past| + k);
    assert (past + news)[..|past| + k] == past + news[..k] && (past + news)[|past| + k] == news[k];
    assert forall e | e in past :: e in past + news[..k];
  }

  lemma {:induction false} ChildrenSpawned(s: World, pid: int)
    requires Linked(s)
    ensures pid in s.children <==> SpawnedBefore(s.trace, pid)
  {
    if pid in s.children {
      assert EvStarted(s.children[pid].parent, pid) in s.trace;
    }
    if SpawnedBefore(s.trace, pid) {
      var e :| e in s.trace && e.EvStarted? && e.pid == pid;
      assert EvStarted(e.name, pid) in s.trace;
    }
  }

  lemma {:induction false} AnnouncedDeathsPrompt(mode: Mode, f: Fine, run: seq<Move>)
    requires Linked(f.world) && OwedAlive(f.world, f.board.owed) && DeathsAnnounced(mode, f, run)
    ensures Prompt(mode, f, run)
    decreases |run|
  {
    if run != [] && FineEnabled(f, run[0]) {
      match run[0] {
        case Act(a) =>
          ActKeepsAlive(mode, f, a);
          StepLinked(mode, f.world, a);
        case Announce(_) =>
      }
      AnnouncedDeathsPrompt(mode, FineStep(mode, f, run[0]), run[1..]);
    }
  }

  /**
   What suffices, whatever the threads do: if every child outlives its announcement, no exit comes
   before its start.
   */
  lemma {:induction false} LateDeathsOrdered(mode: Mode, run: seq<Move>)
    requires FineExec(mode, FINE_INIT, run).Some? && DeathsAnnounced(mode, FINE_INIT, run)
    ensures Ordered(FineExec(mode, FINE_INIT, run).value.board.seen)
  {
    AnnouncedDeathsPrompt(mode, FINE_INIT, run);
    SeenOrder(mode, run);
  }

  // ---- what has been emitted ----

  lemma {:induction false} ReportedAlike(trace: seq<Event>, b: Board, pid: int)
    requires Conserved(trace, b)
    ensures Reported(b.seen, pid) <==> Reported(trace, pid)
  {
    if Reported(b.seen, pid) {
      var e :| e in b.seen && IsExit(e) && e.pid == pid;
      assert e in trace;
    }
    if Reported(trace, pid) {
      var e :| e in trace && IsExit(e) && e.pid == pid;
      assert e in b.seen;
    }
  }

  lemma {:induction false} SpawnedAlike(trace: seq<Event>, b: Board, pid: int)
    requires Conserved(trace, b)
    ensures SpawnedBefore(trace, pid) <==> SpawnedBefore(b.seen, pid) || pid in b.owed
    ensures !(SpawnedBefore(b.seen, pid) && pid in b.owed)
  {
    if SpawnedBefore(b.seen, pid) {
      var e :| e in b.seen && e.EvStarted? && e.pid == pid;
      assert EvStarted(e.name, pid) in trace;
    }
    if pid in b.owed {
      assert EvStarted(b.owed[pid], pid) in trace;
    }
    if SpawnedBefore(trace, pid) {
      var e :| e in trace && e.EvStarted? && e.pid == pid;
      assert e == EvStarted(e.name, pid);
    }
  }

  /**
   An exit has been emitted exactly for the children reaped, and each child has been announced or
   is still owed, never both.
   */
  lemma {:induction false} SeenExactly(mode: Mode, run: seq<Move>, pid: int)
    requires FineExec(mode, FINE_INIT, run).Some?
    ensures var f := FineExec(mode, FINE_INIT, run).value;
            && (Reported(f.board.seen, pid) <==> pid in f.world.children && f.world.children[pid].life == Reaped)
            && (pid in f.world.children <==> SpawnedBefore(f.board.seen, pid) || pid in f.board.owed)
            && !(SpawnedBefore(f.board.seen, pid) && pid in f.board.owed)
  {
    FineRunSound(mode, FINE_INIT, run);
    var f := FineExec(mode, FINE_INIT, run).value;
    ReportedAlike(f.world.trace, f.board, pid);
    SpawnedAlike(f.world.trace, f.board, pid);
    if pid in f.world.children {
      assert EvStarted(f.world.children[pid].parent, pid) in f.world.trace;
    }
  }

  /**
   The order does fail: a child whose command cannot be executed is reaped at once, and its crash
   is emitted before its start.
   */
  lemma {:induction false} CrashBeforeStart(name: Name, config: Config)
    requires config.policy == Never
    ensures var r := FineExec(AS_WRITTEN, FINE_INIT, EarlyDeath(name, config));
            && r.Some? && r.value.board.seen == [EvCrashed(name, 1, 127), EvStarted(name, 1)]
            && !Ordered(r.value.board.seen)
  {
    var run := EarlyDeath(name, config);
    var f1 := FineStep(AS_WRITTEN, FINE_INIT, run[0]);
    var f2 := FineStep(AS_WRITTEN, f1, run[1]);
    var f3 := FineStep(AS_WRITTEN, f2, run[2]);
    var f4 := FineStep(AS_WRITTEN, f3, run[3]);
    PostOne(f1.board, EvStarted(name, 1));
    assert News(f1.world, f2.world) == [EvStarted(name, 1)];
    assert f4.board == f2.board;
    FineUnroll(FINE_INIT, run);
    FineUnroll(f1, run[1..]);
    FineUnroll(f2, run[1..][1..]);
    FineUnroll(f3, run[1..][1..][1..]);
    var last := run[1..][1..][1..][1..];
    assert last == [Act(MonitorPoll(name, false, None)), Announce(1)];
    DeathAnnounced(f4, name, config, last);
  }

  function EarlyDeath(name: Name, config: Config): seq<Move> {
    [Act(Add(name, config)), Act(Start(name, Some(1))), Act(Exit(1, 127 * 256)), Act(MonitorWake(name)),
     Act(MonitorPoll(name, false, None)), Announce(1)]
  }

  lemma {:induction false} DeathAnnounced(f: Fine, name: Name, config: Config, last: seq<Move>)
    requires name in f.world.table && f.world.table[name].pid == 1 && f.world.table[name].monitor == Polling
    requires f.world.table[name].config.policy == Never
    requires f.world.children == map[1 := Child(name, Zombie(127 * 256))] && f.board == Board([], map[1 := name])
    requires last == [Act(MonitorPoll(name, false, None)), Announce(1)]
    ensures var r := FineExec(AS_WRITTEN, f, last);
            && r.Some? && r.value.board.seen == [EvCrashed(name, 1, 127), EvStarted(name, 1)]
            && !Ordered(r.value.board.seen)
  {
    var poll := last[0].action;
    var g := FineStep(AS_WRITTEN, f, last[0]);
    assert News(f.world, Step(AS_WRITTEN, f.world, poll)) == [EvCrashed(name, 1, 127)];
    PostOne(f.board, EvCrashed(name, 1, 127));
    FineUnroll(f, last);
    FineUnroll(g, last[1..]);
    var seen := [EvCrashed(name, 1, 127), EvStarted(name, 1)];
    assert IsExit(seen[0]) && seen[..0] == [];
  }

  lemma {:induction false} PostOne(b: Board, e: Event)
    ensures PostAll(b, [e]) == Post(b, e)
  {
    assert [e][1..] == [];
  }

  lemma {:induction false} FineUnroll(f: Fine, run: seq<Move>)
    requires run != [] && FineEnabled(f, run[0])
    ensures FineExec(AS_WRITTEN, f, run) == FineExec(AS_WRITTEN, FineStep(AS_WRITTEN, f, run[0]), run[1..])
    ensures |run| == 1 ==> FineExec(AS_WRITTEN, f, run) == Some(FineStep(AS_WRITTEN, f, run[0]))
  {
  }
}
