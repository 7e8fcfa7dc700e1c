# A verified model of the sandbox daemon's core

The daemon polls jobs over a binary wire protocol, supervises child processes, exports
Prometheus metrics, keeps a bounded log and watches resource usage. This project models those
parts in Dafny and proves what they do over whole runs. `dafny verify dfyconfig.toml` checks it.

## How it is organised

- `bytes.dfy`, `utf8.dfy`, `results.dfy`, `sequences.dfy`: little-endian integers, UTF-8, errors, sequence
  functions.
- `wire_format.dfy`, `wire_decoder.dfy`: the reply tree, the encoder the client does not contain,
  and `parse_value` as a method (`ParseValue`, `ParseArr`: the array loop has a method of its own)
  that refines the function `Parse`. `Parse` also counts calls and nesting.
- `wire_layout.dfy`, `wire_faults.dfy`: byte order, tags and offsets in numbers, and which error a cut reply gives.
- `requests.dfy`: the offset loop of `send`, and an independent reader of requests.
- `kernel.dfy`, `redis_client.dfy`: sockets and descriptors as the kernel presents them, and the client.
  A C++ `std::string` or buffer is a sequence of bytes; a `double` on the wire is its 64-bit pattern.
  `load_le` and `put_le` copy memory, so they are little-endian where the machine is: that is assumed.
- `stream_sync.dfy`, `fd_ownership.dfy`: theorems about whole conversations and whole programs.
- `devops_script.dfy`: the Python codec embedded in `devops.sh`.
- `supervisor.dfy`, `supervisor_trace.dfy`, `supervisor_restarts.dfy`, `supervisor_exits.dfy`: the
  supervisor as a transition system, the class that implements its steps, and the theorems about runs.
- `supervisor_stop.dfy`, `supervisor_children.dfy`, `supervisor_attempts.dfy`: stops, timeouts, the children
  of one process, and the numbering of restarts.
- `supervisor_order.dfy`: the same system with every STARTED event as a move of its own.
- `metrics.dfy`, `metrics_labels.dfy`, `metrics_page.dfy`, `metrics_http.dfy`: the exporter, and readers
  of the text format it prints and of the response around it. Strings are byte strings here, as in C++:
  each character stands for the byte of its code, so the length of a page is the number of its bytes, which
  is what the response announces. Whether label values are UTF-8, as the format wants, is part of the results.
- `log_aggregator.dfy`, `resource_monitor.dfy`.

Nondeterminism is explicit: the byte counts `send` and `recv` return come from an arbitrary oracle;
results of `socket`, `fork`, `waitpid`, clock readings and /proc totals are arguments of the steps.

## Where the code and its intent part

Each of these is stated for the code as it is, with the exact condition under which the intent holds.

- The restart budget. `spawn_process` zeroes `restart_count` on automatic restarts too. As written the
  budget holds exactly for configurations that never restart (`AsWrittenBudget`); with the reset in
  `start` only, it holds for all (`IntendedBudget`, `AlwaysCrashing`).
- As written every restart is announced as attempt 1 (`AsWrittenAttempts`); with the reset in `start` only,
  attempts count up to the budget (`IntendedAttempts`).
- A stop makes the monitor leave, and the watchdog cannot run while it waits. Unless the monitor was polling
  already, the wait always lasts until its timeout, and the child's exit is never reported in any continuation
  (`StopLosesExit`). If it was polling, a crash is still answered: the entry is then marked STOPPED over a
  running child, or over FAILED (`LateStopMisses`). A process has one unreaped child at a time as long as no
  stop of it has completed (`OneChildAtATime`, `TwoChildren`).
- After a timeout the process is killed, and no monitor is left to see it die (`TimeoutSilences`); as written
  nothing restarts it (`OffForGood`).
- The watchdog decodes the wait status twice. Both reapers agree exactly when the status is decoded
  once or the exit code is 0 (`ReaperAgreement`); as written no watchdog reap leads to a restart
  (`WatchdogNeverRestarts`, `WatchdogHidesCrash`).
- A child killed by a signal has exit code 0, so it is reported as stopped and not restarted; so is, as
  written, every child the watchdog reaps. Whoever reaps, event and restart match how the child ended exactly
  when it exited by itself and its exit code was decoded once or is 0 (`ExitJudgedRight`). After a death by
  signal nothing restarts the process (`SignalDeathIsFinal`, `KilledChildStays`).
- Policy ALWAYS behaves as ON_FAILURE in every run (`AlwaysIsOnFailure`): whoever reaps, it gives the restart
  it promises exactly when the exit code is not 0 and was decoded once, or no restart is left to give
  (`AlwaysKept`).
- The monitor thread exists before STARTED is emitted, so a child that dies at once can be reported
  dead before it is reported started; exits come after their starts exactly in the runs in which no
  child is reaped before its announcement (`SeenOrder`, `CrashBeforeStart`); it suffices that no child dies
  before it (`LateDeathsOrdered`).
- A `start` accepted before the previous child was reaped loses that child's exit
  (`StartLosesUnreapedChild`, `StopStartLosesChild`).
- The request size is a wrapping 32-bit sum: the buffer has the message's size exactly when that size
  fits (`AllocatedSize`). The script has no such sum, so for payloads from 2^32 - 4 up to 2^32 it still
  builds the message, and raises beyond (`BuildMessage`).
- `read_frame` ignores bytes after the reply in its frame (`BodyDecodes`), and after an oversized frame
  the stream is no longer at a frame boundary (`FrameBoundary`).
- The script reads a reply as the C++ client does exactly when no array holds an error or an array and
  a top-level error message is UTF-8, which it decodes strictly (`FlatReplyAgrees`,
  `FlaggedIffUnreadable`, `UndecodableErrorRaises`, `NestedArrayMisread`). A reply cut short raises exactly when something
  is left of it and more than its trailing text is missing, or what is left of an error message is not UTF-8; otherwise it is
  shown as if it were whole (`CutReplyRaises`, `TruncatedTextAccepted`).
- Labels are neither escaped nor checked: a reader of the text format recovers them exactly when every
  name is an identifier and every value is UTF-8 without quote, backslash and newline (`LabelsReadBack`,
  `UnescapedValuesUnreadable`, `QuoteMakesLabelsCollide`), and a page exactly when this holds of
  everything recorded (`PageReadsBack`).
- CPU ticks are conserved exactly when the total never goes back (`TicksConserved`).
- `get_global_stats` and `get_all_usage` judge a sandbox by a second read that follows the reported one.
  With the same memory at both, the verdict fits the report exactly when memory is over its limit, or
  the ticks between the reads exceed the CPU limit just if the reported percentage does (`SecondReadVerdict`);
  if no tick has passed, a CPU excess alone is missed (`NoTickNoCpuVerdict`).
- The history holds only the monitor's own rounds: whatever other callers are handed is missing from it
  (`HistoryAccounts`).
- A tag glued to further characters loses them (`TaggedLine`).

## Assumptions of the supervisor model

`handle_exit`, with the restart it may perform, is one step; so are a spawn and its STARTED event, except
in `supervisor_order.dfy`, where anything the mutex permits may come between them. No pid is used twice. A
monitor thread is attached to its entry's current child: the joining of thread objects in `spawn_process`
is not part of this model, which follows the code as if the join returned, also where the monitor restarts
its own process and the thread to be joined is the caller. The watchdog's scan is one step per entry. An
event callback is installed. Theorems about safety quantify over every interleaving of these steps.

## Model

| member | source | states |
|---|---|---|
| Bytes.LoadPut | sandbox/src/redis_client.cpp:17-24 | loading a stored integer gives it back, for every width and value that fits |
| Bytes.PutLoad | sandbox/src/redis_client.cpp:17-24 | storing what was loaded gives the same bytes: one representation per integer |
| WireDecoder.Parse | sandbox/src/redis_client.cpp:149-223 | on every input the cursor never moves back or past the end, and past it only errors result |
| WireDecoder.ParseValue | sandbox/src/redis_client.cpp:149-223 | the cursor-moving decoder refines `Parse` on all inputs; the subtraction in `need` never underflows |
| WireDecoder.ParseArr | sandbox/src/redis_client.cpp:207-220 | the appending element loop yields the elements in order, or the first failing element's error and cursor |
| WireDecoder.ParseSound | sandbox/src/redis_client.cpp:149-223 | what is accepted between two cursors is exactly the encoding of the returned tree |
| WireDecoder.ParseComplete | sandbox/src/redis_client.cpp:149-223 | wherever an encoding stands, the decoder returns its tree, stops at its end, and makes one call per node |
| WireDecoder.DecodesExactly | sandbox/src/redis_client.cpp:149-223 | decoding succeeds with v and end if and only if v is encodable and its encoding fills the bytes between |
| WireDecoder.RoundTrip | sandbox/src/redis_client.cpp:149-223 | an encoded tree of any depth decodes to itself between arbitrary bytes |
| WireDecoder.PrefixFree | sandbox/src/redis_client.cpp:149-223 | no encoding is a prefix of another |
| WireDecoder.StrictPrefixRejected | sandbox/src/redis_client.cpp:150-159 | a truncated reply is rejected, never read as another tree |
| WireDecoder.WorkBound | sandbox/src/redis_client.cpp:157-220 | calls are at most the bytes left plus one and nesting a fifth of them plus one, whatever counts are claimed; a decoded tree has no more nodes than bytes |
| WireDecoder.ParseFaults | sandbox/src/redis_client.cpp:150-222 | the decoder reports only empty, truncated or unknown-tag bodies |
| WireLayout.Load32Sum | sandbox/src/redis_client.cpp:17-24 | of four bytes the first counts 1 and the last 2^24 |
| WireLayout.Load64Sum | sandbox/src/redis_client.cpp:17-24 | of eight bytes the fifth counts 2^32 |
| WireLayout.Put32Bytes | sandbox/src/redis_client.cpp:17-24 | four bytes are a stored integer if and only if they weigh so |
| WireLayout.Put64Bytes | sandbox/src/redis_client.cpp:17-24 | likewise eight bytes |
| WireLayout.ReadsNil | sandbox/src/redis_client.cpp:166-167 | a reply that starts with 0 is nil and one byte long |
| WireLayout.ReadsError | sandbox/src/redis_client.cpp:169-182 | 1, four bytes of code, four of length, the message |
| WireLayout.ReadsText | sandbox/src/redis_client.cpp:184-193 | 2, four bytes of length, the text |
| WireLayout.ReadsInteger | sandbox/src/redis_client.cpp:195-199 | 3 and eight bytes in two's complement |
| WireLayout.ReadsDouble | sandbox/src/redis_client.cpp:201-205 | 4 and eight bytes |
| WireLayout.ReadsArray | sandbox/src/redis_client.cpp:207-220 | 5, four bytes of count, the elements |
| WireLayout.RefusesOtherTags | sandbox/src/redis_client.cpp:222 | any first byte above 5 is refused with its own number |
| WireFaults.StrictPrefixFault | sandbox/src/redis_client.cpp:150-220 | a reply cut anywhere is an empty body if a reply was about to begin there, at any depth, and truncated otherwise |
| Requests.AllocatedSize | sandbox/src/redis_client.cpp:107-112 | the wrapping sum equals the message size if and only if the message is below 2^32 bytes |
| Requests.MessageBuffer.Copy | sandbox/src/redis_client.cpp:118 | replaces exactly the addressed bytes and counts one write on each |
| Requests.MessageBuffer.WriteBlocks | sandbox/src/redis_client.cpp:115-120 | the offset loop appends every argument block after the header and ends at the end of the buffer |
| Requests.BuildRequest | sandbox/src/redis_client.cpp:107-120 | the buffer holds exactly the request, every byte written once, with the offset at the end |
| Requests.ReadsExactly | sandbox/src/redis_client.cpp:107-120 | a reader recovers an argument list from bytes if and only if they are its request |
| Requests.StreamReadsBack | sandbox/src/redis_client.cpp:102-126 | requests sent back to back are read back as the same list of argument lists |
| Client.RedisClient.WriteAll | sandbox/src/redis_client.cpp:78-88 | all bytes go out in order under any chunking, or a strict prefix and a socket error |
| Client.RedisClient.ReadExact | sandbox/src/redis_client.cpp:90-100 | the buffer is filled with the next bytes under any chunking, or the call fails because the kernel refused or the stream ended |
| Client.RedisClient.ReadFrame | sandbox/src/redis_client.cpp:128-145 | consumes exactly one frame and returns its decoding, or the header of an oversized one, or reports the socket |
| Client.RedisClient.Send | sandbox/src/redis_client.cpp:102-126 | one request out and one frame in, a state error without a descriptor |
| Client.RedisClient.Connect | sandbox/src/redis_client.cpp:42-67 | the old descriptor is closed; a new one is held unless socket or host resolution failed |
| Client.RedisClient.Close | sandbox/src/redis_client.cpp:69-74 | closes the held descriptor once and forgets it |
| Client.RedisClient.MoveAssign | sandbox/src/redis_client.cpp:34-40 | takes over the other's descriptor after closing its own; self-assignment changes nothing |
| Client.RedisClient.MoveFrom | sandbox/src/redis_client.cpp:32 | the descriptor changes hands and the source keeps none |
| StreamSync.FrameBoundary | sandbox/src/redis_client.cpp:128-145 | a frame is consumed whole exactly when its length is within the limit |
| StreamSync.Synchronised | sandbox/src/redis_client.cpp:78-145 | the i-th call returns the decoding of the i-th frame and leaves the stream at the next, as long as no call was lost |
| StreamSync.NothingLost | sandbox/src/redis_client.cpp:78-145 | with enough frames within the limit and a kernel that does not refuse, no call is lost |
| StreamSync.Conversation | sandbox/src/redis_client.cpp:78-145 | the client gets exactly the peer's replies in order and the peer reads exactly the requests in order |
| StreamSync.AskAll | sandbox/src/redis_client.cpp:78-145 | the same for the code itself: calling `send` once per argument list, under any chunking without a refusal |
| StreamSync.ChunkingInvisible | sandbox/src/redis_client.cpp:78-100 | two sessions on the same bytes, chunked differently, agree on every result up to a socket error |
| StreamSync.BodyDecodes | sandbox/src/redis_client.cpp:138-144 | a frame returns v if and only if its body starts with the encoding of v |
| Kernel.Descriptors.Close | sandbox/src/redis_client.cpp:69-74 | every opening is closed at most once; closing anything else is counted as stray |
| FdOwnership.Program.Apply | sandbox/src/redis_client.cpp:30-74 | every operation changes who holds which descriptor as the value model says, the open descriptors are exactly those held, each by one client, none closed twice |
| FdOwnership.Program.Run | sandbox/src/redis_client.cpp:30-74 | so does every script of operations over any number of clients |
| FdOwnership.HeldOnce | sandbox/src/redis_client.cpp:30-67 | in the value model no script makes two clients hold one descriptor |
| FdOwnership.ConnectThenMove | sandbox/src/redis_client.cpp:32-66 | a client connected to a valid host holds the kernel's answer, even if it was not reached, and a move hands it over |
| FdOwnership.Program.DestroyAll | sandbox/src/redis_client.cpp:30 | when all clients are gone nothing is open and every opening was closed exactly once |
| Utf8.ValidExactly | devops.sh:130 | what strict decoding accepts is exactly what encodes some sequence of Unicode scalar values (sections 3 and 4 of RFC 3629) |
| DevopsScript.BuildMessage | devops.sh:112-116 | builds the request's bytes if the payload is below 2^32 bytes and raises otherwise: the bytes of the C++ client wherever its own size sum does not wrap, that is below 2^32 - 4 |
| DevopsScript.ParseResp | devops.sh:124-150 | the loop computes what `PyParse` says on all bytes |
| DevopsScript.FlatReplyAgrees | devops.sh:124-150 | on all bytes the C++ decoder reads as a flat reply, whose message is UTF-8 if it is an error, the script reads the same values at the same offsets |
| DevopsScript.MarksAreItems | devops.sh:137-149 | at each offset the script visits the C++ decoder reads that element and ends at the next offset |
| DevopsScript.FlaggedIffUnreadable | devops.sh:124-150 | on bytes the C++ decoder reads, the script raises or prints an unknown if and only if an array holds an error or an array, or a top-level error message is not UTF-8 |
| DevopsScript.UndecodableErrorRaises | devops.sh:128-130 | the error reply with message FF is read by the C++ client and raises in the script |
| DevopsScript.NestedArrayMisread | devops.sh:137-149 | an array inside an array is shown as unknowns, its count read as elements |
| DevopsScript.CutReplyRaises | devops.sh:118-149 | every strict prefix of every flat reply: the script raises if and only if it is not empty and more than the trailing text is missing or the remaining error message is not UTF-8; the C++ decoder always rejects |
| DevopsScript.TruncatedTextAccepted | devops.sh:131-133 | a text cut inside its content is shown shortened |
| Supervisor.ProcessSupervisor.AddProcess | sandbox/src/process_supervisor.cpp:22-35 | adds a stopped entry unless the name exists |
| Supervisor.ProcessSupervisor.SpawnProcess | sandbox/src/process_supervisor.cpp:63-131 | the new state after a successful or failed fork, with thread creation and STARTED event as one step |
| Supervisor.ProcessSupervisor.HandleExitOf | sandbox/src/process_supervisor.cpp:176-217 | the new state and events after an exit, with the restart decision |
| Supervisor.ProcessSupervisor.StartProcess | sandbox/src/process_supervisor.cpp:50-61 | refuses unknown and running processes, otherwise spawns |
| Supervisor.ProcessSupervisor.BeginStop | sandbox/src/process_supervisor.cpp:219-236 | refuses unknown and not running processes, otherwise clears the running flag and waits with the mutex held |
| Supervisor.ProcessSupervisor.EndStop | sandbox/src/process_supervisor.cpp:236-250 | marks the process stopped, whatever happened to it meanwhile, and releases the mutex |
| Supervisor.ProcessSupervisor.StopEverything | sandbox/src/process_supervisor.cpp:257-266 | clears the running flag of exactly the running entries |
| Supervisor.ProcessSupervisor.MonitorHead | sandbox/src/process_supervisor.cpp:136 | the thread goes on exactly while the running flag is set |
| Supervisor.ProcessSupervisor.MonitorBody | sandbox/src/process_supervisor.cpp:136-157 | one monitor pass: reap, or give up after a timeout, or wait again |
| Supervisor.ProcessSupervisor.WatchdogEntry | sandbox/src/process_supervisor.cpp:331-339 | the watchdog reaps a dead running child and hands on the status it decoded |
| SupervisorTrace.TraceGrammar | sandbox/src/process_supervisor.cpp:127-207 | with a spawn and its STARTED event as one step: in every reachable trace an exit answers a distinct earlier start, no exit is reported twice, no pid started twice, a restart directly follows a crash |
| SupervisorTrace.ReportedExactly | sandbox/src/process_supervisor.cpp:138-186 | a child's exit is in the trace if and only if the child has been reaped |
| SupervisorTrace.StartLosesUnreapedChild | sandbox/src/process_supervisor.cpp:50-61 | after an accepted start the previous child's exit is ever reported if and only if it had been reaped before |
| SupervisorTrace.OrphanNeverReported | sandbox/src/process_supervisor.cpp:136-143 | a child that is no longer its entry's current one is never reaped, in any run |
| SupervisorTrace.StopStartLosesChild | sandbox/src/process_supervisor.cpp:50-250 | such a run: stop gives up waiting, start follows, the first child's exit is never reported |
| SupervisorStop.StopSilences | sandbox/src/process_supervisor.cpp:219-266 | after an accepted stop, or a stop of all, with the monitor not polling, no run without a start and without a watchdog reap of the process polls, reaps, restarts or spawns it |
| SupervisorStop.TimeoutSilences | sandbox/src/process_supervisor.cpp:145-157 | nor after a poll that finds it alive beyond its timeout |
| SupervisorStop.MonitorLeaves | sandbox/src/process_supervisor.cpp:133-236 | such runs: the monitor returns after a stop and after a timeout |
| SupervisorStop.PollingChangesNothing | sandbox/src/process_supervisor.cpp:136-173 | any number of polls of a living process without timeout leaves the whole state as it was |
| SupervisorChildren.OneChildAtATime | sandbox/src/process_supervisor.cpp:50-131 | in every run without a completed stop of it a process has at most one unreaped child |
| SupervisorChildren.TwoChildren | sandbox/src/process_supervisor.cpp:50-250 | and two in a run with one |
| SupervisorChildren.LockedStep | sandbox/src/process_supervisor.cpp:219-250 | while a stop waits, only children and monitor threads move |
| SupervisorChildren.StopLosesExit | sandbox/src/process_supervisor.cpp:219-250 | stopping with the monitor not polling: the status stays RUNNING through the wait whatever happens, and the child's exit is never reported in any continuation |
| SupervisorChildren.LateStopMisses | sandbox/src/process_supervisor.cpp:136-250 | with the monitor polling: STOPPED over a running child that no stop touches any more, or over FAILED |
| SupervisorChildren.OffForGood | sandbox/src/process_supervisor.cpp:133-339 | as written not even the watchdog leads to a restart of a process nobody polls |
| SupervisorChildren.ReapTurnsOff | sandbox/src/process_supervisor.cpp:138-182 | a reap that is not answered by a restart clears the running flag, and nothing polls the process any more |
| SupervisorOrder.FineRefines | sandbox/src/process_supervisor.cpp:63-131 | the system with separate STARTED moves refines the one without, so all theorems about states carry over |
| SupervisorOrder.SeenOrder | sandbox/src/process_supervisor.cpp:121-127 | in every interleaving the events emitted have no child started or exiting twice and restarts directly after crashes; exits come after their starts if and only if no child was reaped before its STARTED event |
| SupervisorOrder.SeenExactly | sandbox/src/process_supervisor.cpp:121-186 | an exit has been emitted exactly for the reaped children, and each child's start either has been or is still to come |
| SupervisorOrder.LateDeathsOrdered | sandbox/src/process_supervisor.cpp:121-186 | if no child dies before its STARTED event, exits come after their starts in every interleaving |
| SupervisorOrder.CrashBeforeStart | sandbox/src/process_supervisor.cpp:106-127 | the run in which a failed exec is reported before the start |
| SupervisorRestarts.BudgetConserved | sandbox/src/process_supervisor.cpp:192-207 | with the reset in start only, the counter advances by exactly the restarts, which stay within the budget |
| SupervisorRestarts.IntendedBudget | sandbox/src/process_supervisor.cpp:63-216 | then no run without an explicit start restarts a process more than max_restarts times |
| SupervisorRestarts.AsWrittenRestartsForever | sandbox/src/process_supervisor.cpp:63-216 | as written, for every n a run with n restarts and no explicit start |
| SupervisorRestarts.CrashLoopRuns | sandbox/src/process_supervisor.cpp:133-217 | n crashes reaped by the monitor give n restarts and n spawns: always as written, within the budget as intended |
| SupervisorRestarts.AsWrittenBudget | sandbox/src/process_supervisor.cpp:63-216 | as written the budget holds if and only if the policy is NEVER or max_restarts is 0 |
| SupervisorRestarts.AlwaysCrashing | sandbox/src/process_supervisor.cpp:192-216 | as intended an always-crashing process is spawned at most max_restarts + 1 times, exactly that often when it ends FAILED, in every interleaving, whatever other processes do |
| SupervisorRestarts.AlwaysCrashingEndsFailed | sandbox/src/process_supervisor.cpp:192-216 | and a run that gets there exists |
| SupervisorAttempts.IntendedAttempts | sandbox/src/process_supervisor.cpp:192-203 | with the reset in start only, attempts are numbered consecutively over any run without a start, never above the budget |
| SupervisorAttempts.AsWrittenAttempts | sandbox/src/process_supervisor.cpp:63-203 | as written every restart is attempt 1 in every run |
| SupervisorAttempts.StartRefillsBudget | sandbox/src/process_supervisor.cpp:50-216 | an accepted start lets the process crash and be restarted max_restarts times again |
| SupervisorRestarts.ReaperAgreement | sandbox/src/process_supervisor.cpp:138-336 | monitor and watchdog leave the same state if and only if the status is decoded once or the exit code is 0 |
| SupervisorRestarts.QuietUntilStarted | sandbox/src/process_supervisor.cpp:133-339 | a process whose child has been reaped is neither spawned nor restarted until an explicit start |
| SupervisorRestarts.WatchdogNeverRestarts | sandbox/src/process_supervisor.cpp:331-339 | as written a watchdog reap always reports a stop with code 0 and nothing restarts the process without an explicit start |
| SupervisorRestarts.WatchdogHidesCrash | sandbox/src/process_supervisor.cpp:331-339 | such a run: the child exits with code 1 and the watchdog reports a stop |
| SupervisorExits.ExitJudgedRight | sandbox/src/process_supervisor.cpp:133-339 | whichever thread reaps, the event matches how the child ended if and only if it exited by itself and its code was decoded once or is 0, and so does the restart decision unless no restart is due |
| SupervisorExits.SignalDeathIsFinal | sandbox/src/process_supervisor.cpp:133-339 | after either thread has reaped a child killed by a signal, no run without an explicit start spawns the process again |
| SupervisorExits.KilledChildStays | sandbox/src/process_supervisor.cpp:133-207 | such a run, with SIGKILL and any policy |
| SupervisorExits.AlwaysIsOnFailure | sandbox/src/process_supervisor.cpp:191-207 | with ON_FAILURE for ALWAYS in every configuration the same runs are possible, through the same states, with the same events |
| SupervisorExits.AlwaysKept | sandbox/src/process_supervisor.cpp:133-339 | whichever thread reaps, ALWAYS restarts whenever the budget allows if and only if the exit code is not 0 and was decoded once, or the budget is spent |
| LogAggregator.FindSpaceIsFirst | sandbox/src/log_aggregator.cpp:23-40 | the blank found is the first; without a result there is none |
| LogAggregator.TaggedLine | sandbox/src/log_aggregator.cpp:23-40 | level and message of a tagged line, and exactly when only tag and space are taken off |
| LogAggregator.SixTags | sandbox/src/log_aggregator.cpp:28-37 | the level of each of the six tags |
| LogAggregator.PlainLine | sandbox/src/log_aggregator.cpp:24-25 | a line without any tag is kept whole, at level info |
| LogAggregator.LineChanged | sandbox/src/log_aggregator.cpp:23-40 | the message differs from the line if and only if the line has a tag and a space, and is always an end of the line |
| LogAggregator.LogAggregator.Push | sandbox/src/log_aggregator.cpp:15-21 | the newest max entries remain; the length is min(old + 1, max) |
| LogAggregator.LogAggregator.PushRaw | sandbox/src/log_aggregator.cpp:23-40 | pushes the classified line (`PlainLine`, `TaggedLine`) |
| LogAggregator.LogAggregator.Search | sandbox/src/log_aggregator.cpp:42-52 | the reverse scan with cutoff returns the last limit matches in original order |
| LogAggregator.LogAggregator.GetBySource | sandbox/src/log_aggregator.cpp:81-91 | the same for entries of one source |
| LogAggregator.LogAggregator.GetRecent | sandbox/src/log_aggregator.cpp:71-79 | the last count entries |
| LogAggregator.LogAggregator.SetMaxEntries | sandbox/src/log_aggregator.cpp:93-96 | changes the limit and nothing else: entries go only at the next push |
| LogAggregator.LogAggregator.ClearAll | sandbox/src/log_aggregator.cpp:103-106 | empties the store |
| LogAggregator.NarrowerQuery | sandbox/src/log_aggregator.cpp:42-52 | a query that contains another finds, in the same order, exactly what searching within the other's results finds |
| LogAggregator.EmptyQueryIsRecent | sandbox/src/log_aggregator.cpp:42-79 | searching for nothing is asking for the most recent entries, for every store and limit |
| LogAggregator.ContainsExactly | sandbox/src/log_aggregator.cpp:46 | a message matches if and only if it is the query with something before and after it |
| LogAggregator.StoreAfter | sandbox/src/log_aggregator.cpp:15-106 | after any run from a new store: the limit set last, and exactly the latest pushes since the last clear, as many as pushes, limits and clears leave |
| LogAggregator.DefaultStore | sandbox/src/log_aggregator.cpp:15-21 | the last 10000 if the limit is never changed |
| LogAggregator.RetentionOverRuns | sandbox/src/log_aggregator.cpp:15-106 | after any interleaving of push, limit change and clear the store is a suffix of the pushes since the last clear |
| LogAggregator.FixedLimit | sandbox/src/log_aggregator.cpp:15-21 | with an unchanged limit it is exactly the last max pushes |
| LogAggregator.QueryResultsOrdered | sandbox/src/log_aggregator.cpp:10-52 | with a monotone clock every query result is in time order |
| Metrics.MetricsExporter.RenderPrometheus | sandbox/src/metrics.cpp:56-77 | the page is the text of the grouped exposition of everything recorded |
| Metrics.MetricsExporter.AddCounter | sandbox/src/metrics.cpp:18-21 | appends one sample of its kind; gauge and histogram likewise |
| Metrics.RenderLabels | sandbox/src/metrics.cpp:33-45 | the loop with the first flag renders the comma-separated label set |
| Metrics.BelowExactly | sandbox/src/metrics.cpp:60-61 | the map's order: at the first difference the smaller byte decides, and a proper prefix comes first |
| Metrics.GroupedExactly | sandbox/src/metrics.cpp:60-64 | the map is in key order and holds under each name exactly its samples in push order |
| Metrics.RenderedSamplesAreStableSort | sandbox/src/metrics.cpp:56-77 | the rendered samples are a stable sort by name of everything recorded |
| Metrics.StableSortUnique | sandbox/src/metrics.cpp:56-77 | there is only one stable sort, so the previous row determines the samples |
| Metrics.StableSortIsPermutation | sandbox/src/metrics.cpp:56-77 | every sample is rendered as often as it was recorded |
| Metrics.GroupsWellFormed | sandbox/src/metrics.cpp:66-75 | one contiguous group per name, headed by one HELP and one TYPE line with the type of the first push, and closed by one empty line |
| MetricsLabels.QuotedExactly | sandbox/src/metrics.cpp:38-42 | a reader with the format's escapes gets an unescaped value back if and only if it has no quote, backslash or newline |
| MetricsLabels.LabelsReadBack | sandbox/src/metrics.cpp:33-45 | a reader of the label syntax recovers the labels if and only if every name is an identifier and every value is UTF-8 and free of quote, backslash and newline |
| MetricsLabels.UnescapedValuesUnreadable | sandbox/src/metrics.cpp:38-42 | a value ending in a backslash, one with a newline and one with the byte FF make the label set unreadable |
| MetricsLabels.LabelTextInjective | sandbox/src/metrics.cpp:33-45 | different label maps without equals signs in names and quotes in values render differently |
| MetricsLabels.QuoteMakesLabelsCollide | sandbox/src/metrics.cpp:38-42 | with a quote in a value two different maps render the same |
| MetricsPage.LineExactly | sandbox/src/metrics.cpp:66-75 | a printed HELP, TYPE or sample line is read as meant, up to its end, if and only if its name, labels and value are legible, and an illegible one is never read as what it was meant to say |
| MetricsPage.PageReadsBack | sandbox/src/metrics.cpp:56-77 | a reader recovers all lines of the page in order if and only if everything recorded is legible |
| MetricsHttp.DecimalReadsBack | sandbox/src/metrics.cpp:147-153 | the printed length parses back to itself |
| MetricsHttp.StatusLines | sandbox/src/metrics.cpp:145-154 | the status lines of the two codes that are sent |
| MetricsHttp.ResponseBytes | sandbox/src/metrics.cpp:145-154 | every byte after the status line |
| MetricsHttp.ResponseReadsBack | sandbox/src/metrics.cpp:145-154 | reading the status, splitting at the first empty line and reading Content-Length recovers exactly the body, blank lines included, with nothing left over, if and only if the code has three digits and allows a body or the body is empty (sections 4, 6.2 and 6.3 of RFC 9112); so for 200 and 404, the codes sent |
| ResourceMonitor.TicksConserved | sandbox/src/resource_monitor.cpp:78-83 | the deltas handed out over any reads add up to the growth of the total if and only if it never goes back, and to one counter turn more per step back |
| ResourceMonitor.PercentAccountsForTime | sandbox/src/resource_monitor.cpp:78-213 | over any interleaving of k reads the percentages account for the time consumed, never for more, and less than one short per read |
| ResourceMonitor.ResourceMonitor.ReadUsage | sandbox/src/resource_monitor.cpp:43-87 | usage from the difference to the last total, which it replaces |
| ResourceMonitor.ResourceMonitor.MonitorRound | sandbox/src/resource_monitor.cpp:163-183 | records the usage, keeps the last 1000, raises the alerts due |
| ResourceMonitor.ResourceMonitor.GetHistory | sandbox/src/resource_monitor.cpp:193-202 | the last n of everything ever recorded, within the window |
| ResourceMonitor.ResourceMonitor.GetViolations | sandbox/src/resource_monitor.cpp:211-230 | a memory violation if and only if the memory read exceeds its limit, a CPU one if and only if the fresh percentage does |
| ResourceMonitor.ResourceMonitor.IsOverLimit | sandbox/src/resource_monitor.cpp:204-209 | compares a fresh read, which consumes the ticks since the last one, with all three limits |
| ResourceMonitor.ResourceMonitor.CheckAlerts | sandbox/src/resource_monitor.cpp:121-161 | each level for each resource if and only if the usage is in its range |
| ResourceMonitor.AlertsMonotone | sandbox/src/resource_monitor.cpp:121-161 | more usage never silences an alert nor lowers its level |
| ResourceMonitor.OverLimitIffViolations | sandbox/src/resource_monitor.cpp:121-230 | over limit if and only if there is a violation or the process limit is exceeded, which no usage read here does; every violation is also alerted |
| ResourceMonitor.ResourceMonitor.RunCalls | sandbox/src/resource_monitor.cpp:163-230 | any script of rounds and questions: the answers, the tick total and the history are those of all its reads in order |
| ResourceMonitor.HistoryAccounts | sandbox/src/resource_monitor.cpp:78-230 | over any script the recorded percentages together with those handed to other callers account for the time consumed |
| ResourceMonitor.TotalsExactly | sandbox/src/resource_monitor.cpp:284-300 | the number of sandboxes, of those over their limit, and the sums of memory, CPU and processes in their widths |
| ResourceMonitor.GetGlobalStats | sandbox/src/resource_monitor.cpp:284-300 | the totals over distinct monitors from two reads each; as many are counted over their limit as their second read says |
| ResourceMonitor.SecondReadVerdict | sandbox/src/resource_monitor.cpp:273-297 | for any ticks between the two reads the verdict matches the reported usage if and only if memory is over its limit, or those ticks exceed the CPU limit just if the reported percentage does |
| ResourceMonitor.NoTickNoCpuVerdict | sandbox/src/resource_monitor.cpp:273-297 | when no tick passes it matches if and only if CPU is within its limit or memory is not |

## Left out

- Real sockets, processes, signals, clocks and /proc text: arguments and oracles stand for them; `setsockopt`, `chdir`, `setenv` and `setrlimit` have no effect here.
- Requests.BuildRequest: requires a message below 2^32 bytes; beyond that the C++ code writes outside its buffer, which this model has no state for (`AllocatedSize` gives the condition).
- Client.RedisClient.Send: requires a message below 2^32 bytes; beyond that the C++ code writes outside its buffer, which this model has no state for (`AllocatedSize` gives the condition).
- Client.RedisClient.Connect: the resolver, `::connect` and the texts of error messages are reduced to flags and call names.
- The command wrappers of the client (`set`, `get`, `job_next`, ...): they only build argument lists.
- SupervisorTrace.TraceGrammar: takes a spawn and its STARTED event as one step; `SeenOrder` says what holds when they are two.
- Supervisor.ProcessSupervisor.SpawnProcess: does not model the joining of monitor thread objects, the child's side of the fork, or start times.
- Supervisor.ProcessSupervisor.HandleExitOf: is one step with its restart; a `start` during the restart delay, and so more than one live child per name through it, is not modelled.
- `remove_process`, `get_info` and `get_all_states`: erasing an entry that a monitor thread still names is outside the model; the others only copy.
- DevopsScript.BuildMessage: takes its arguments as the bytes `encode` yields; an argument Python cannot encode raises before.
- The script's own socket handling (`recv` once per field) and Python's rendering of numbers as text.
- Metrics: `render_json`, the accept loop, request routing, and the printing of doubles; a sample's value is the text the stream prints.
- MetricsPage.PageReadsBack: the format's rule that a histogram is a family of `_bucket`, `_sum` and `_count` series is not read; the exporter prints a histogram as one bare sample.
- MetricsPage.LineExactly: the reader skips no blanks, knows no time stamps, and takes a value to be any text without blanks.
- LogAggregator: `search_regex`, which rests on a library; mutexes, since every method holds one throughout.
- ResourceMonitor.ResourceMonitor.CheckAlerts: compares exact ratios, not rounded doubles.
- ResourceMonitor.ResourceMonitor.ReadUsage: disk, network and uptime fields, which nothing compares.
- `sandbox.cpp`, `seccomp.cpp`, `health_monitor.cpp` and `main.cpp`: kernel plumbing and straight-line code.
- Allocation failure and exceptions of the C++ library.
