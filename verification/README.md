# Verification model of the AROS kernel core

A Dafny model of the parts of the kernel where correctness is hardest to see by reading one
function, with proofs. `dafny verify dfyconfig.toml` checks the whole project.

## What is modelled

**The DAG engine** (`src/dag/`).

- `DagTypes` holds the graph as a value (nodes by id, dependency lists, statuses) and its theory:
  paths, cycles, walks in finite sets, and dependency orders as certificates of acyclicity.
- `DagGraphs.DagGraph` is the mutable graph with its loops: depth-first cycle check, Kahn's sort,
  insertion with roll-back, guarded removal. Hash-map iteration is an arbitrary choice in every
  loop, so each contract holds for every visiting order.
- `DagSchedule` says what a run must end in without mentioning any schedule: the completing nodes
  are the least set closed under "all dependencies complete and the task succeeds". `Settled` is
  the resulting graph. Every tick preserves it and a graph with nothing ready equals it; schedule
  independence, crash recovery and the verdicts follow from these two facts.
- `DagExecution` is the executor (two lock sections per tick, and the loop to a verdict) and the
  load half of the checkpoint code. A task's outcome is a function of its node; a panicked task is a failure.
- `DagRuntime` is the run-time mutator interface.
- `DagInterleaving` is the concurrent system: any number of executors, mutators, checkpoints and
  crash-and-load take turns on the lock, and anything may happen between the two halves of a tick.
  Each step applies the same value functions that the class methods are proved to compute.

**Two calendars** (`src/envelope/task_envelope.rs`, `src/hardware/snapshot.rs`). `Calendar` counts
days year by year and month by month; `Timestamps` proves that the envelope's closed form inverts
that count and that the snapshot's loops write the same text (section 5.6 of RFC 3339).

**Resource and failure bookkeeping.** `Governors`, `GovernorRaces`, `GovernorTaskCounts` and
`GovernorTightness` for admission by racing callers, whose envelopes ask for a megabyte and a token at
least, as `src/envelope/task_envelope.rs` validates; `Restarts` for the sliding-window restart limit and its backoff;
`CircuitBreakers` over timed event traces; `Slots` for the slot calculator against the
one-at-a-time gate, and for the allocator. `MachineInts` holds the fixed-width integers and
`MemoryPressure` the pressure level they share.

## Where the code departs from what it says

The model follows the code; each departure has its own statement.

- `topological_sort` says it fails on a cycle. It also fails on an acyclic graph in which a node
  lists an existing dependency twice (`TopologicalSort`, `RepeatWithoutCycle`).
- The restart backoff says "exponential increase, capped". The u64 multiplier is narrowed to u32, so
  the backoff is zero for 33 to 64 consecutive failures and nearly constant from 65 on (`BackoffLaw`;
  `BackoffIsExponentialIff` gives the exact condition, `DefaultBackoffCollapses` an input, and
  `DefaultReachesCollapse` restart times under which the default tracker gets there).
- The per-tier task limit can be overrun by callers that check before either starts. As every task holds a
  megabyte at least, the largest request a tier admits also limits the number of tasks: `n` callers reach
  the smaller of that and the task limit, plus `n - 1` (`BoundIsAttained`), and never more
  (`TasksAreBounded`). `LimitHoldsIff` says when the task limit holds.
- The tier RSS limit and the system ceiling, whose headroom the configuration says is never allocated
  into, are overrun in the same way: `n` callers reach `n` times the largest request
  (`RssBoundIsAttained`, `CeilingBoundIsAttained`) and never more (`RacesAreBounded`,
  `CeilingIsBounded`). `RssLimitHoldsIff` and `CeilingHoldsIff` say when each holds.
  With the default budgets and configuration two callers overrun all of them (`DefaultsAreOverrun`).
- `ceiling - headroom` is an unsigned subtraction and means what it says exactly when the headroom
  is not larger (`CeilingIsMeantIff`).
- `run` never returns with `max_parallel = 0` and a ready node (`ZeroParallelNeverMoves`). Excluding that is the
  only precondition of `Run` besides `graph.Valid()`: nodes are stored under their own id.
- `run` may report "stuck" while another executor is still at work on the same graph and about to complete it
  (`StuckTooEarly`). `NothingReadyVerdictIff` says exactly when its verdict is final, `StopVerdict` that it
  is then the verdict of the whole run, `LastToStopIsRight` that the last executor to stop always gives that one.
- `add_node` takes any status. `AddKeepsInvIff` says exactly which added nodes keep the interleaving invariant
  (`AddedNodeIsSoundIff`: which keep the graph sound); `InProgressNodeBreaksInv` is one that does not. The
  theorems over interleavings ask this of each accepted addition, in the state in which it happens.
- `remove_node` and `update_dependencies` report `NodeInProgress` for finished and blocked nodes too
  (`NodeInProgressMeansNotPending`).
- The half-open state is said to allow a limited number of requests; it allows every one
  (`UnlessOpenAllAreAdmitted`).

u32 and u64 counters wrap as in a release build; atomic counters wrap in every build.

## Model

| member | source | states |
|---|---|---|
| DagGraphs.DagGraph.HasCycle | src/dag/graph.rs:225-235 | true exactly when the existing nodes have a directed dependency cycle, for every visiting order of roots |
| DagGraphs.DagGraph.DfsCycle | src/dag/graph.rs:237-262 | one search either exhibits a cycle or finishes its node with visited nodes = finished nodes in dependency order plus the current path; recursion uses up unvisited nodes |
| DagGraphs.DagGraph.TopologicalSort | src/dag/graph.rs:169-218 | Ok is a permutation of all ids with dependencies first; error exactly on a cycle or a repeated in-graph dependency; the reported id leads to one of them |
| DagGraphs.DagGraph.InDegrees | src/dag/graph.rs:171-183 | degrees count in-graph dependency positions, repeats included |
| DagGraphs.DagGraph.ZeroIds | src/dag/graph.rs:185-189 | the initial queue holds exactly the nodes of degree zero, each once |
| DagGraphs.DagGraph.LowerDependents | src/dag/graph.rs:196-205 | after one pop every degree again equals in-graph positions minus popped dependencies, and exactly the nodes of degree zero are placed, each once |
| DagGraphs.ZeroDegree | src/dag/graph.rs:196-205 | a degree is zero exactly when no in-graph dependency repeats and all of them are popped |
| DagGraphs.PopOne | src/dag/graph.rs:196-205 | a dependent's degree is positive when its dependency is popped, so the decrement never underflows |
| DagGraphs.RepeatWithoutCycle | src/dag/graph.rs:177-206 | an acyclic graph that the sort refuses because of a repeated dependency |
| DagGraphs.DagGraph.ReadyNodes | src/dag/graph.rs:132-144 | exactly the pending nodes whose dependencies all exist and are done, each once |
| DagGraphs.DagGraph.AddNode | src/dag/graph.rs:85-100 | refused without effect exactly on a taken id or a resulting cycle; otherwise adds the node and nothing else |
| DagGraphs.DagGraph.RemoveNode | src/dag/graph.rs:103-116 | refused without effect exactly on an unknown id or while another node names it |
| DagGraphs.NewCycleRunsThrough | src/dag/graph.rs:90-97 | a cycle that appears when one node changes runs through that node |
| DagGraphs.ClosesCycleIff | src/dag/graph.rs:85-100 | giving one node of an acyclic graph new dependencies closes a cycle exactly when one of them already leads to that node |
| DagGraphs.AddAnswers | src/dag/graph.rs:85-100 | the answer and the effect of adding a node in every case |
| DagGraphs.RemoveAnswers | src/dag/graph.rs:103-116 | the answer and the effect of removing a node in every case |
| DagSchedule.LeastFixpoint | src/dag/graph.rs:132-144 | the completing set is the least closed set and a fixed point of "done, or pending with all dependencies completing and succeeding" |
| DagSchedule.TickKeepsSettled | src/dag/executor.rs:34-108 | running any set of ready nodes leaves the settled graph unchanged |
| DagSchedule.QuiescentIsSettled | src/dag/executor.rs:120-125 | a graph with nothing ready is its own settled graph |
| DagSchedule.SettledIsQuiescent | src/dag/executor.rs:117-125 | the settled graph has nothing ready, and settling is idempotent |
| DagSchedule.SettledDone | src/dag/graph.rs:147-165 | the done nodes at the end are exactly the least completing set |
| DagSchedule.PendingHasBlame | src/dag/executor.rs:120-125 | in a quiescent acyclic graph every pending node leads to one naming an absent dependency or one neither pending nor done |
| DagSchedule.BlameAfterRun | src/dag/executor.rs:112-125 | after a run from all pending, every node left pending reaches a failed node or a missing dependency |
| DagSchedule.StuckMeansMissing | src/dag/executor.rs:117-125 | on a non-empty acyclic graph of pending and done nodes, the stuck verdict implies a pending node with a missing dependency |
| DagSchedule.AllSucceedingCompletes | src/dag/executor.rs:112-119 | with no missing dependency and all tasks succeeding such a graph completes |
| DagSchedule.VerdictIff | src/dag/executor.rs:116-125 | each verdict in terms of the statuses: all done and not empty, some failed, neither |
| DagSchedule.SettledResults | src/dag/executor.rs:97-102 | a run changes pending nodes only, to done with result true or failed with result false as their task ends |
| DagExecution.DagExecutor.TickBegin | src/dag/executor.rs:35-52 | claims min(max_parallel, ready) distinct ready nodes and changes only their status, all ready ones if they are fewer |
| DagExecution.DagExecutor.TickEnd | src/dag/executor.rs:92-105 | each reported node still there is done or failed with its result and otherwise as before; no other node changes |
| DagExecution.DagExecutor.ExecuteTick | src/dag/executor.rs:34-108 | one uninterrupted tick runs a legal choice of ready nodes and reports each once with its outcome |
| DagExecution.DagExecutor.Run | src/dag/executor.rs:112-130 | ends in the settled graph with its verdict, within (pending nodes + 1) ticks, executing nodes in dependency order |
| DagExecution.LogGrows | src/dag/executor.rs:92-108 | appending a tick's nodes keeps the execution log in dependency order and accounts for all changes |
| DagExecution.CompletedLogIsTopological | src/dag/executor.rs:112-119 | the completion order of an all-pending graph meets the topological sort's contract |
| DagExecution.ZeroParallelNeverMoves | src/dag/executor.rs:39-56 | with max_parallel zero and a ready node no number of ticks changes the graph or meets a stop condition |
| DagExecution.LoadCheckpoint | src/dag/persistence.rs:54-78 | a missing, unreadable or malformed file is the checkpoint, I/O or parse error, and only then; otherwise the snapshot with in-progress nodes reset |
| DagExecution.RecoveryIsExact | src/dag/persistence.rs:63-75 | the reset is idempotent, leaves nothing in progress and changes nothing else |
| DagRuntime.RuntimeDag.AddNode | src/dag/runtime.rs:32-35 | the graph's own insertion rules under the lock |
| DagRuntime.RuntimeDag.RemoveNode | src/dag/runtime.rs:39-56 | removes pending nodes nobody names; any error leaves the graph as it was |
| DagRuntime.RuntimeDag.UpdateDependencies | src/dag/runtime.rs:60-90 | rewires pending nodes; on a cycle the roll-back restores the graph exactly |
| DagRuntime.CycleErrorIsOnCycle | src/dag/runtime.rs:82-87 | on an acyclic graph the id in a cycle error lies on a cycle of the attempted graph |
| DagRuntime.MutationsAreSafe | src/dag/runtime.rs:32-90 | every sequence of requests keeps the graph acyclic, keeps non-pending nodes unchanged and keeps their resolved dependencies resolved |
| DagRuntime.OthersKeepResolved | src/dag/runtime.rs:39-90 | whatever is requested about other nodes, a node of any status stays as it is and keeps every dependency it could resolve |
| DagRuntime.NodeInProgressMeansNotPending | src/dag/runtime.rs:43-74 | the node-in-progress error is the answer exactly to removing or rewiring an existing node that is not pending |
| DagRuntime.AcceptedIff | src/dag/runtime.rs:32-90 | an acyclic graph accepts exactly new nodes, removals of pending nodes nobody names and rewirings of pending nodes, where no new dependency leads back |
| DagRuntime.RequestAnswers | src/dag/runtime.rs:32-90 | which error answers which request, and what an accepted one changes, in every case |
| DagInterleaving.InvAlways | src/dag/executor.rs:36-105 | in every interleaving whose accepted additions are not in progress and, if finished, have their dependencies done: acyclic, started nodes have all dependencies done, in-progress is the disjoint union of claims, nothing is dispatched twice between loads |
| DagInterleaving.WriteBackFindsItsNodes | src/dag/executor.rs:93-105 | at write-back every claimed node is still there and in progress |
| DagInterleaving.FinishedForever | src/dag/runtime.rs:39-74 | between loads a finished node is never changed or removed by anyone |
| DagInterleaving.AddedNodeIsSoundIff | src/dag/graph.rs:85-100 | an added node keeps the graph sound exactly when, if started, its dependencies are done |
| DagInterleaving.AddKeepsInvIff | src/dag/graph.rs:85-100 | an accepted node keeps the interleaving invariant exactly when it is not in progress and, if finished, its dependencies are done |
| DagInterleaving.InProgressNodeBreaksInv | src/dag/graph.rs:85-100 | in any good state a fresh in-progress node without dependencies is accepted, keeps the graph sound and breaks the invariant |
| DagInterleaving.CrashResumeEquivalence | src/dag/persistence.rs:54-78 | whatever the executors, checkpoints, crashes and loads, every state and every checkpoint settles, after recovery, to the settled graph of the start |
| DagInterleaving.ScheduleIndependence | src/dag/executor.rs:34-130 | any two behaviours from the same graph that come to rest have every node in the same state |
| DagInterleaving.NothingReadyVerdictIff | src/dag/executor.rs:116-125 | with nothing ready, the verdict is the finished run's for all outcomes to come exactly when nothing is in progress or a node has failed |
| DagInterleaving.StopVerdict | src/dag/executor.rs:112-125 | in any behaviour of any number of executors, a stop with nothing in progress or on a failure gives the verdict of the start's settled graph |
| DagInterleaving.StuckTooEarly | src/dag/executor.rs:120-125 | a run in which a second executor finds the graph stuck one step before the first completes it |
| DagInterleaving.LastToStopIsRight | src/dag/executor.rs:112-125 | in any behaviour, when nothing is ready and no executor holds a claim, the graph is the settled graph of the start and gives its verdict |
| DagInterleaving.CompletionIsRight | src/dag/executor.rs:117-119 | in any behaviour, a graph found complete is the settled graph of the start, whatever the other executors are at |
| DagInterleaving.TicksTogetherAreBounded | src/dag/executor.rs:34-52 | between mutations and loads the nodes dispatched by all executors are those no longer pending, so their busy ticks together are at most the nodes pending at the start |
| DagInterleaving.ResultsAlwaysMatch | src/dag/executor.rs:97-102 | in every interleaving a node is done exactly when its result is a success and failed exactly when it is a failure |
| Calendar.DayNumberOrder | src/hardware/snapshot.rs:42-66 | valid dates and day numbers correspond one to one and in order |
| Calendar.YearOfEra | src/envelope/task_envelope.rs:27-30 | the year-of-era formula brackets its day, and a 366th day occurs only before a leap February's end |
| Timestamps.CivilInvertsCalendar | src/envelope/task_envelope.rs:24-34 | the closed form gives a valid date whose day count is the input day |
| Timestamps.FormatIso8601 | src/hardware/snapshot.rs:30-77 | the year and month loops produce exactly the envelope's text, for every second whose year fits i32 |
| Timestamps.FieldsInvert | src/envelope/task_envelope.rs:17-34 | all six fields are in range and count back to the epoch second |
| Timestamps.TextReadsBack | src/envelope/task_envelope.rs:36 | for every second: the separators of section 5.6 of RFC 3339 are in place, everything else is a decimal digit, the digits denote the six fields, and the year has four digits up to 9999 and then more without a leading zero |
| Timestamps.TimestampsSortByTime | src/envelope/task_envelope.rs:36 | up to year 9999 the text has 20 characters and a later second gives a lexicographically greater text |
| Governors.ResourceGovernor.CheckAdmission | src/governor/governor.rs:84-181 | when exactly the answer is admitted, shed or throttled, in plain arithmetic on the counters of all tiers |
| Governors.CeilingIsMeantIff | src/governor/governor.rs:169-171 | the effective ceiling is the difference exactly when headroom fits; otherwise the check admits everything |
| Governors.TierUsage.RecordTaskStart | src/governor/budget.rs:67-70 | the start update that the race model makes |
| Governors.TierUsage.RecordTaskEnd | src/governor/budget.rs:73-80 | the end update that the race model makes |
| Governors.EndUndoesStartIff | src/governor/budget.rs:67-80 | an end after a start restores all counters exactly when the RSS did not wrap, and the task count always |
| Governors.ResourceGovernor.TaskStarted | src/governor/governor.rs:262-266 | only the named tier changes |
| Governors.ResourceGovernor.TaskEnded | src/governor/governor.rs:269-273 | only the named tier changes |
| GovernorRaces.RacesAreBounded | src/supervisor/handler.rs:209-238 | at every moment of every interleaving of single counter reads and updates the counters equal the counted tasks and their megabytes, and counted plus promised stays within limit + n - 1 tasks and n times the tier RSS |
| GovernorRaces.CeilingIsBounded | src/governor/governor.rs:163-171 | although no caller reads the three tiers at one time, megabytes held and promised over all tiers stay within n times the ceiling |
| GovernorRaces.OneCallerIsSafe | src/governor/governor.rs:115-180 | with one caller at a time no tier limit and no system limit is ever exceeded |
| GovernorRaces.EndsNeverUnderflow | src/governor/budget.rs:73-80 | a matched end never wraps the count and never saturates the RSS |
| GovernorRaces.UninterruptedIff | src/governor/governor.rs:115-180 | a submission nobody interrupts, reading the tiers in any order, is let in exactly on the conditions on tasks and memory under which `CheckAdmission` admits, and changes no counter |
| GovernorRaces.UpdatesAreRecorded | src/governor/budget.rs:67-80 | the two atomic updates of a start, and of an end, add up to what one call records, and leave the other tiers alone |
| GovernorTaskCounts.TasksAreBounded | src/governor/governor.rs:115-178 | in every run the active count stays within min(task limit, largest admitted request) + n - 1, and at zero if the tier lets in nobody |
| GovernorTightness.BoundIsAttained | src/supervisor/handler.rs:203-238 | some run with n callers and requests of a megabyte or more reaches exactly that bound |
| GovernorTightness.LimitHoldsIff | src/governor/governor.rs:115-178 | the task limit holds in all runs exactly when there is one caller, the tier lets in nobody (no tasks, no tokens or no megabytes), or the largest admitted request plus n - 1 stays within it |
| GovernorTightness.RssBoundIsAttained | src/governor/governor.rs:150-161 | some run with n callers makes one tier hold exactly n times the largest request it admits |
| GovernorTightness.RssLimitHoldsIff | src/governor/governor.rs:150-161 | the tier RSS limit holds in all runs exactly when the tier allows no tasks or no tokens, or n largest requests fit into it |
| GovernorTightness.CeilingBoundIsAttained | src/governor/governor.rs:163-171 | when one tier may use up the ceiling, some run reaches exactly n times the ceiling |
| GovernorTightness.CeilingCanBeOverrun | src/governor/governor.rs:163-171 | two or more callers pass a positive ceiling whenever n times what the tiers admit exceeds it, even if no single tier could |
| GovernorTightness.CeilingHoldsIff | src/governor/governor.rs:163-178 | ceiling less headroom holds in all runs exactly when headroom fits and there is one caller, nothing to give, or n times what the tiers admit stays within it |
| GovernorTightness.DefaultsAreOverrun | src/governor/governor.rs:26-33 | with the default budgets and configuration n >= 2 callers reach n + 1, n + 3 and n + 1 tasks, n times each tier's RSS, and more than ceiling less headroom |
| Restarts.RestartTracker.RecordRestart | src/supervisor/process.rs:73-90 | refused exactly when the full history since reset has max_restarts entries in the window, although only the pruned list is kept; failures count every success since reset |
| Restarts.RestartTracker.Reset | src/supervisor/process.rs:93-96 | forgets history and failures |
| Restarts.AnyWindowIsLimited | src/supervisor/process.rs:76-86 | no closed window of the configured length, wherever it starts, holds more than max_restarts restarts |
| Restarts.PruneAgain | src/supervisor/process.rs:76-78 | pruning with growing cutoffs keeps exactly the in-window part of the full history |
| Restarts.SinceCounts | src/supervisor/process.rs:76-81 | what pruning keeps is what lies between the cutoff, included, and the present |
| Restarts.BackoffLaw | src/supervisor/process.rs:99-104 | the exact backoff for every failure count, never above backoff_max |
| Restarts.BackoffDoubles | src/supervisor/process.rs:99-104 | the backoff starts at the base and each failure up to the 32nd doubles it up to the cap |
| Restarts.BackoffGrows | src/supervisor/process.rs:99-104 | non-decreasing over the first 32 consecutive failures |
| Restarts.BackoffIsExponentialIff | src/supervisor/process.rs:98-104 | exactly when the backoff is the capped exponential |
| Restarts.DefaultBackoffCollapses | src/supervisor/process.rs:44-53 | with the default policy failure 1 waits 100 ms, failure 32 waits 30 seconds and failure 33 waits nothing |
| Restarts.FailuresAreReachableIff | src/supervisor/process.rs:73-90 | every failure count can be reached without a refusal exactly when the policy allows a restart at all |
| Restarts.DefaultWindow | src/supervisor/process.rs:44-53 | under the default policy no five minutes hold more than five restarts |
| Restarts.DefaultReachesCollapse | src/supervisor/process.rs:73-104 | 33 restarts 75 seconds apart are all accepted under the default policy and end with a zero backoff |
| CircuitBreakers.RequestAfterTrip | src/adapter/circuit_breaker.rs:76-135 | after a trip a request is allowed exactly when open_duration has passed since the trip; failures in between do not extend it |
| CircuitBreakers.NoRequestDuringWait | src/adapter/circuit_breaker.rs:129-135 | on a monotone clock no request is allowed during the wait |
| CircuitBreakers.HalfOpenOrigin | src/adapter/circuit_breaker.rs:76-107 | a half-open breaker that was open was let in after a full wait and its counter is the successes since, without a failure |
| CircuitBreakers.UnlessOpenAllAreAdmitted | src/adapter/circuit_breaker.rs:129-135 | while closed or half-open any number of requests are all let through and change nothing |
| CircuitBreakers.OpenClosesOnlyByProbing | src/adapter/circuit_breaker.rs:97-102 | the last return from open to closed passed through a full wait and exactly max(1, probe_success_count) successes with no failure |
| CircuitBreakers.HalfOpenClosesIff | src/adapter/circuit_breaker.rs:97-102 | without a failure a half-open breaker closes exactly when its successes reach max(1, probe_success_count), and stays half-open until then |
| CircuitBreakers.RecoveryCloses | src/adapter/circuit_breaker.rs:76-102 | from open: a request after the full wait, then at least that many successes and no failure, and only these, end in closed |
| CircuitBreakers.FailureReopens | src/adapter/circuit_breaker.rs:119-122 | one failure before the probes are complete opens it again and restarts the wait |
| CircuitBreakers.ClosedCounter | src/adapter/circuit_breaker.rs:110-127 | while closed the counter is the trailing run of failures since the last success or state change, below max(1, failure_threshold) |
| CircuitBreakers.ClosedTripsExactly | src/adapter/circuit_breaker.rs:113-118 | a closed breaker trips exactly at the event that completes that many straight failures |
| CircuitBreakers.CircuitBreaker.State | src/adapter/circuit_breaker.rs:76-83 | moves open to half-open once the wait is over and reports the resulting state |
| CircuitBreakers.CircuitBreaker.RecordSuccess | src/adapter/circuit_breaker.rs:91-107 | the success step of the trace model |
| CircuitBreakers.CircuitBreaker.RecordFailure | src/adapter/circuit_breaker.rs:110-127 | the failure step of the trace model |
| CircuitBreakers.CircuitBreaker.AllowsRequest | src/adapter/circuit_breaker.rs:130-135 | the ask step of the trace model; allowed unless still open |
| Slots.SlotsAreLargest | src/scheduler/admission.rs:67-96 | k agents fit (pressure, CPU, memory, limit) exactly when k is at most the slot count |
| Slots.SlotsCountRounds | src/scheduler/admission.rs:43-96 | the slot count is the number of gate-then-allocate rounds before the first refusal, at any pressure |
| Slots.ReleaseRestoresIff | src/scheduler/allocator.rs:28-40 | a release undoes an allocation exactly when no counter overflowed |
| Slots.AllocatorConserves | src/scheduler/allocator.rs:28-40 | for every order of allocations and matched releases the counters are the sums over what is still out |
| Slots.AllocationsWrap | src/scheduler/allocator.rs:28-33 | allocations alone add up modulo 2^32, fitting or not |
| Slots.ResourceAllocator.Allocate | src/scheduler/allocator.rs:28-33 | the allocation step of that trace |
| Slots.ResourceAllocator.Release | src/scheduler/allocator.rs:35-40 | the release step of that trace |

## Left out

- JSON encoding, file paths and non-atomic file writes of checkpoints: save and load are a snapshot of the node map, and a load that cannot read or parse the file is one error each.
- Node payload (title, description, agent level, output files, retry count, output text, duration): no modelled function reads it.
- Task spawning, sleeping and join errors: a tick is two lock sections with an outcome per node; tick intervals are not modelled.
- TopologicalSort: a panic on a node stored under a foreign key is not modelled; nodes are stored under their own id, which every modelled mutator keeps.
- FormatIso8601: seconds whose year does not fit i32 are excluded; there the year counter overflows.
- RecordRestart: a debug build panics where the failure counter wraps, and `now` is taken to be far enough from the clock's origin for `now - restart_window` to exist.
- RacesAreBounded: token usage is not tracked; the token check may pass when some usage and estimate do (`TokensMayPass`), and token and pressure refusals are an arbitrary refusal at any check.
- CeilingIsBounded: states the bound while no u64 sum of tier counters can wrap (`SumsFit`), which is always so for fewer than 2^30 callers (`FewCallersFit`); beyond that a wrapped total may pass the ceiling comparison.
- TasksAreBounded: under `SumsFit` as well, because the ceiling is one of its limits; without it `RacesAreBounded` bounds the tasks by the task limit plus n - 1.
- LimitHoldsIff: under `SumsFit` as well, for the same reason.
- RssLimitHoldsIff: under `SumsFit` as well, because its condition rests on the ceiling when that is the smaller limit.
- CeilingHoldsIff: under `SumsFit` as well, for the same reason.
- Token accounting (record_tokens, reset_hourly_tokens, check_runtime): tokens are checked but not reserved at start, so no bound follows.
- The unknown-tier branches of the governor: its constructor installs all three tiers.
- The completion path of `src/supervisor/handler.rs`, which releases a fixed tier and zero megabytes, and registration of submitted tasks.
- CircuitBreaker: the clock is a parameter and monotone, so `elapsed` never saturates; provider ids are not modelled.
- DAG statistics and counts (stats, done_count, node_count): only easy members.
- Restart counts and handles of `src/supervisor/kernel.rs` and `health.rs`, provider resolution, the state store, hardware probes, dispatch, agents and the command line.
