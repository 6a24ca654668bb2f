# CPU scheduling simulator: a verified model

This project models the scheduling core of a CPU-scheduling simulator web
application. The server receives a list of processes, each with a pid, an
arrival time, a burst time and optionally a priority. It runs one of six
strategies, each of which produces a Gantt chart (a sequence of
`{pid, start, end}` segments):

- First Come First Serve (FCFS);
- non-preemptive Shortest Job First;
- Shortest Remaining Time First (SRTF);
- non-preemptive priority;
- preemptive priority;
- Round Robin.

From the chart it derives per-process waiting, turnaround and response times,
their averages, the CPU utilisation and the throughput. On the client, a
process-entry form validates a draft process and adds it to the list, removes
processes by pid, and coerces numeric inputs with `parseInt(value, 10) || 0`.

The model is written in Dafny. It has one module per file:

| module | file | what it holds |
|---|---|---|
| `Wrappers` | `wrappers.dfy` | `Option` and `Result` |
| `Processes` | `processes.dfy` | `Process`; `Job` (a process with its remaining time); sums over job lists |
| `Gantt` | `gantt.dfy` | `Entry`, the CPU time a chart gives each pid, and `ValidGantt` (see below) |
| `Sorting` | `sorting.dfy` | the stable sort by arrival time |
| `Selection` | `selection.dfy` | the ready filter, the `reduce` that picks the first minimal job, next-arrival and `findIndex` |
| `Fcfs` | `fcfs.dfy` | the FCFS strategy |
| `NonPreemptive` | `nonpreemptive.dfy` | SJF and non-preemptive priority, which are one loop with two keys |
| `Preemptive` | `preemptive.dfy` | SRTF and preemptive priority, which are one loop with two keys |
| `Merge` | `merge.dfy` | the pass that merges adjacent segments of the same pid |
| `RoundRobin` | `roundrobin.dfy` | Round Robin |
| `Metrics` | `metrics.dfy` | `calculateMetrics` |
| `Simulator` | `simulator.dfy` | the dispatch on the algorithm name |
| `ProcessForm` | `processform.dfy` | the entry form, as a class `Form` whose methods update its fields |

Every strategy is a method with the source's `while` loop. Each is proved to
return a valid chart (`Gantt.ValidGantt`), which means:

- every segment has positive length, and segments are ordered and do not overlap;
- every segment belongs to a known process;
- no segment starts before its process arrives;
- every process receives exactly its burst of CPU time.

Each strategy is also proved to follow its own selection rule:

- FCFS serves processes in arrival order.
- The non-preemptive strategies start each job as soon as the CPU is free and a
  job has arrived, and run the chosen job to completion.
- In a preemptive run, every tick runs the job the selection picks at that
  tick, and no tick is idle while some job with work left has arrived.
- In Round Robin, every slice serves the head of the FIFO ready queue, as the
  source's queue rule leaves it after the earlier slices. The rule: a job that
  arrives during a slice joins the queue before the job that just ran goes back.
  Each slice starts at the clock, or at the next arrival when the queue is
  empty, and lasts `min(quantum, remaining)`.

Times are integers. Averages, utilisation and throughput are `real`s.

## Model

| member | source | states |
|---|---|---|
| Sorting.SortByArrivalPermutes | server/controllers/simulate.js:81 | sorting by arrival returns a permutation of the processes and keeps pids distinct |
| Sorting.SortByArrivalIsStable | server/controllers/simulate.js:81 | the sorted list is ordered by arrival, and processes with equal arrival keep their input order (the sort is stable) |
| Fcfs.Fcfs | server/controllers/simulate.js:79-102 | the chart is valid, has one segment per process, and segment k serves the k-th process in arrival order from max(end of the previous segment, its arrival) for its whole burst |
| Processes.Initial | server/controllers/simulate.js:109 | the working copy pairs every process with remaining time equal to its burst, in input order |
| Processes.EarliestArrival | server/controllers/simulate.js:64 | `Math.min` over the arrivals: no process arrives earlier, and some process arrives then |
| Selection.Ready | server/controllers/simulate.js:117 | the ready list holds exactly the remaining jobs that have arrived by the current time; it is empty iff none has |
| Selection.SelectIndex | server/controllers/simulate.js:127-130 | the `reduce` with strict `<` yields the first job of least key (burst, remaining time or priority) in the ready list |
| Selection.MinArrival | server/controllers/simulate.js:121 | the idle jump goes to the least arrival among the remaining jobs, which is the arrival of one of them |
| Selection.NextArrival | server/controllers/simulate.js:196-198 | the next-arrival bound lies in (t, t+1] and is below every later arrival; with integer times it is always t+1 |
| Selection.FindIndex | server/controllers/simulate.js:143 | `findIndex` returns the first position with the pid, or -1 iff there is none |
| Selection.SpliceRemovesPid | server/controllers/simulate.js:143-144 | with distinct pids, `splice(findIndex(pid), 1)` removes exactly the job with that pid |
| Selection.Choice | server/controllers/simulate.js:126-130 | the chosen job is one of the remaining jobs and has arrived |
| NonPreemptive.NonPreemptive | server/controllers/simulate.js:108-148 | SJF (and, with the priority key, lines 240-280): a valid chart with one segment per process; each segment starts when the CPU is free and a job has arrived, and runs the first ready job of least key for its whole burst |
| NonPreemptive.NpIdle | server/controllers/simulate.js:119-124 | when nothing is ready, jumping to the earliest remaining arrival keeps the loop invariant and makes a job ready |
| NonPreemptive.NpStep | server/controllers/simulate.js:126-144 | running the chosen job to completion and splicing it out keeps the loop invariant |
| NonPreemptive.NpDone | server/controllers/simulate.js:115 | when the loop ends, the chart is valid and every segment is the chosen one |
| NonPreemptive.UnscheduledAppend | server/controllers/simulate.js:142-144 | the jobs not yet in the chart after a new segment are the earlier ones with that pid removed |
| Preemptive.Preemptive | server/controllers/simulate.js:151-237 | SRTF (and, with the priority key, lines 283-369): the merged chart is valid, no two adjacent segments share a pid, every tick of every segment runs the job the selection picks at that tick, and no tick before the chart's end is idle while some job with work left has arrived |
| Preemptive.IdleKeepsNoIdle | server/controllers/simulate.js:164-169 | the idle jump to the earliest remaining arrival skips only ticks at which no job with work left has arrived |
| Preemptive.TickKeepsNoIdle | server/controllers/simulate.js:171-207 | a tick of the chosen job covers the current tick and keeps every earlier ready tick covered |
| Preemptive.TickCovers | server/controllers/simulate.js:177-190 | extending the open segment or opening a new one covers the current tick and every tick an earlier segment covered |
| Preemptive.RunChosen | server/controllers/simulate.js:171-223 | one iteration: the chosen job loses one unit of remaining time (and is removed at zero), the open segment is extended or a new one opened, and the clock advances by 1 |
| Preemptive.PPick | server/controllers/simulate.js:192-204 | `runTime` is always 1, and the index found is that of the chosen job |
| Preemptive.PIdle | server/controllers/simulate.js:164-169 | an idle jump happens only with no open segment, and it keeps the history invariant |
| Preemptive.PRun | server/controllers/simulate.js:171-207 | one tick of the chosen job keeps the invariant that the working list is what the history leaves of the processes |
| Preemptive.PFinish | server/controllers/simulate.js:160 | when the loop ends, the chart is valid and has no adjacent repeat |
| Preemptive.TickKeepsChosen | server/controllers/simulate.js:171-190 | extending the history by a tick of the chosen job keeps every earlier tick's choice |
| Preemptive.PendingTick | server/controllers/simulate.js:202-204 | the working list after a tick is the previous one with the ticked job decremented |
| Preemptive.DecrementOutstanding | server/controllers/simulate.js:204 | decrementing a job lowers the total outstanding time by one per job with that pid |
| Merge.MergeAdjacent | server/controllers/simulate.js:227-234 | the loop computes `Coalesce`: each merged segment is one maximal block of neighbouring same-pid input segments, from its first start to its last end, and the blocks cover the input in order |
| Merge.CoalesceMergesRuns | server/controllers/simulate.js:227-234 | the input is cut, left to right and without gaps, into maximal blocks of neighbouring same-pid segments, and merged segment j has block j's pid, the start of its first segment and the end of its last |
| Merge.NewRunMaximal | server/controllers/simulate.js:229-230 | a segment whose pid differs from its predecessor's opens a new block, and the blocks stay maximal |
| Merge.NewRunSpans | server/controllers/simulate.js:229-230 | copying such a segment makes it the merged entry of its one-segment block |
| Merge.GrowRunMaximal | server/controllers/simulate.js:231-232 | a segment with its predecessor's pid joins the last block, and the blocks stay maximal |
| Merge.GrowRunSpans | server/controllers/simulate.js:231-232 | taking its end stretches the last merged entry to the end of the grown block |
| Merge.CoalesceNoRepeat | server/controllers/simulate.js:227-234 | after merging, no two adjacent segments share a pid |
| Merge.CoalesceIdentity | server/controllers/simulate.js:227-234 | a chart with no adjacent repeat is returned unchanged |
| Merge.CoalesceKeepsBusy | server/controllers/simulate.js:227-234 | when each segment starts where the previous one ends, merging keeps every pid's CPU time |
| RoundRobin.RoundRobin | server/controllers/simulate.js:372-434 | a valid chart in which every segment of a process runs min(quantum, burst minus the time the process already had); segment k serves the head of the FIFO queue as the source's rule leaves it after the first k segments, starting at the clock or, when that queue is empty, at the next arrival; after the last segment the queue and the pending list are empty |
| RoundRobin.Admit | server/controllers/simulate.js:384-402 | the jump to the first pending arrival queues at least one job, in order, and leaves the rest pending |
| RoundRobin.Settle | server/controllers/simulate.js:394-402 | the loop waits for an arrival only when the queue is empty; a non-empty queue is served as it is |
| RoundRobin.ReplayIdle | server/controllers/simulate.js:394-402 | the loop's idle branch is the jump the replayed rule takes |
| RoundRobin.RunSliceIsSlice | server/controllers/simulate.js:405-430 | the loop body's new queue, pending list and clock are the replayed rule's next slice |
| RoundRobin.ReplaySlice | server/controllers/simulate.js:405-430 | a slice from the state the rule reached after k slices gives the state after k + 1 |
| RoundRobin.ReplayStep | server/controllers/simulate.js:405-430 | one iteration of the loop that runs a slice moves the loop's state from the replay's state after k slices to its state after k + 1 |
| RoundRobin.ServesHeadAppend | server/controllers/simulate.js:411-416 | the segment the loop appends is the head of the queue from the current clock, and earlier segments keep their place |
| RoundRobin.BackToBack | server/controllers/simulate.js:393-420 | while the ready queue holds a job the CPU does not idle: the next slice starts when the previous one ends |
| RoundRobin.RunSlice | server/controllers/simulate.js:405-430 | one slice: the head of the queue runs min(quantum, remaining), arrivals up to the new time are queued, then the job itself if it has time left |
| RoundRobin.EnqueueArrivals | server/controllers/simulate.js:423-425 | the shift/push loop moves exactly the arrived prefix of the pending list to the end of the ready queue |
| RoundRobin.Arrived | server/controllers/simulate.js:388-390 | the arrived prefix is the longest prefix of jobs arriving by t |
| RoundRobin.ArrivedSplits | server/controllers/simulate.js:381 | the pending list, sorted by arrival, is the arrived prefix followed by jobs that all arrive after t and are still sorted |
| RoundRobin.RrStart | server/controllers/simulate.js:380-385 | the sorted working copy satisfies the loop invariant before the first iteration |
| RoundRobin.RrIdle | server/controllers/simulate.js:394-402 | with an empty ready queue, jumping to the next arrival queues at least one job and keeps the invariant |
| RoundRobin.RrStep | server/controllers/simulate.js:405-430 | a slice keeps the invariant and lowers the total outstanding time |
| RoundRobin.RrFinish | server/controllers/simulate.js:393 | when queue and pending list are empty, every process has had exactly its burst |
| RoundRobin.SliceAtMostQuantum | server/controllers/simulate.js:409 | no slice exceeds the quantum, and a slice shorter than the quantum completes its process |
| Metrics.CalculateMetrics | server/controllers/simulate.js:4-76 | one entry per pid with the times `TimesOf` reads off the chart; averages are column totals over the count; utilisation and throughput follow the formulas when the chart is non-empty, and are 0 otherwise |
| Metrics.InitialTimes | server/controllers/simulate.js:14-23 | the maps hold exactly the pids; each process has the initial times (0, 0, -1) |
| Metrics.RecordRuns | server/controllers/simulate.js:26-43 | after the pass over the chart, each process has `TimesOf` the chart |
| Metrics.TimesStep | server/controllers/simulate.js:32-42 | one segment's update is `TimesOf` the chart one segment longer for its pid, and leaves every other pid unchanged |
| Metrics.ColumnTotals | server/controllers/simulate.js:46-55 | the loop sums each column over the processes |
| Metrics.ResponseUnsetIffNoEntry | server/controllers/simulate.js:21-35 | the response time stays -1 iff the process has no segment |
| Metrics.ValidTimes | server/controllers/simulate.js:32-42 | on a valid chart: response = first start - arrival, 0 <= response <= waiting, and turnaround >= burst |
| Metrics.TotalsDiffer | server/controllers/simulate.js:51-55 | total turnaround - total waiting = total burst, and 0 <= total response <= total waiting |
| Metrics.ValidAverages | server/controllers/simulate.js:57-59 | 0 <= average response <= average waiting, and average turnaround = average waiting + mean burst |
| Metrics.BusyIsTotalBurst | server/controllers/simulate.js:66-67 | on a valid chart the summed segment lengths equal the total burst of the processes |
| Metrics.BusyOverAppend | server/controllers/simulate.js:67 | one more segment adds its length once to the per-process busy sum when its pid is known |
| Metrics.SpanCovers | server/controllers/simulate.js:64-67 | the busy time is positive and no larger than the span from the earliest arrival to the last end |
| Metrics.UtilisationBounded | server/controllers/simulate.js:62-73 | on a valid chart the span is positive, utilisation lies in (0, 100] and throughput is positive |
| Gantt.TotalBusy | server/controllers/simulate.js:67 | the `reduce` summing `end - start` over the segments; non-negative when no segment ends before it starts |
| Gantt.FirstStart | server/controllers/simulate.js:33-34 | the start of the first segment of the pid |
| Gantt.LastEnd | server/controllers/simulate.js:38 | the end of the last segment of the pid |
| Simulator.RunSimulation | server/controllers/simulate.js:445-466 | an unknown name fails with "Algorithm not supported" whatever the process list; each known name succeeds with its own report name, a valid non-empty chart carrying that strategy's guarantee, and consistent metrics |
| Simulator.AlgoName | server/controllers/simulate.js:445-465 | exactly the six names of the switch are accepted, each paired with the non-empty name its strategy reports (lines 84, 112, 155, 244, 287, 376) |
| Simulator.AlgoNameInjective | server/controllers/simulate.js:84-376 | no two strategies report the same name |
| Simulator.EffectiveQuantum | server/controllers/simulate.js:462 | `timeQuantum \|\| 1`: the quantum given, or 1 when it is missing or 0; never 0 |
| Simulator.QuantumPositive | server/controllers/simulate.js:462 | for a missing or non-negative quantum the effective one is positive, and it is 1 iff the given one is missing or at most 1 |
| Simulator.Finish | server/controllers/simulate.js:104 | a strategy's result carries its name and its chart, with `calculateMetrics`'s report of that chart: each process's `TimesOf`, the three column averages over all processes, utilisation and throughput over the positive span, and the bounds `0 <= response <= waiting`, turnaround = waiting + mean burst, utilisation in (0, 100] and throughput > 0 |
| Simulator.NonEmptySchedule | server/controllers/simulate.js:62 | a valid chart of at least one process is non-empty, so the utilisation branch is taken |
| ProcessForm.NumberValue | client/src/components/ProcessForm.js:16 | `parseInt(value, 10) \|\| 0`: the number read, or 0 when nothing is read (NaN) |
| ProcessForm.ParseInt | client/src/components/ProcessForm.js:16 | `parseInt(s, 10)`: skips leading white space, takes an optional sign and the longest digit run, and is NaN when there are no digits |
| ProcessForm.ParseShown | client/src/components/ProcessForm.js:15-17 | a number input holding the decimal form of n, optionally followed by a non-digit, reads back as n |
| ProcessForm.NoDigitsIsZero | client/src/components/ProcessForm.js:16 | an input with no digit is coerced to 0 |
| ProcessForm.TrimStart | client/src/components/ProcessForm.js:16 | drops exactly the leading white space |
| ProcessForm.DigitRun | client/src/components/ProcessForm.js:16 | the length of the leading run of digits |
| ProcessForm.Check | client/src/components/ProcessForm.js:27-51 | the checks of `onSubmit` in order: a failure yields one of the five messages, and a pass means a non-empty, fresh pid and a valid process |
| ProcessForm.CheckMeaning | client/src/components/ProcessForm.js:27-51 | the draft passes iff it is valid with a fresh non-empty pid and, when shown, a non-negative priority; each message is reported iff its check fails and every earlier one passes |
| ProcessForm.AcceptedKeepsWellFormed | client/src/components/ProcessForm.js:47-54 | appending an accepted draft keeps the pids distinct and the processes valid |
| ProcessForm.Without | client/src/components/ProcessForm.js:66 | the filter keeps exactly the processes whose pid differs |
| ProcessForm.WithoutDeletes | client/src/components/ProcessForm.js:65-67 | with distinct pids, removing the pid of element i deletes that element and keeps the rest in order |
| ProcessForm.WithoutAbsent | client/src/components/ProcessForm.js:65-67 | removing a pid that is not present leaves the list unchanged |
| ProcessForm.RemovalKeepsWellFormed | client/src/components/ProcessForm.js:65-67 | removing keeps the list well-formed |
| ProcessForm.Form.constructor | client/src/components/ProcessForm.js:3-10 | the draft starts as pid '', arrival 0, burst 1, priority 1 when shown and null otherwise, with no error |
| ProcessForm.Form.Change | client/src/components/ProcessForm.js:14-21 | the named input's field is set (text for the pid, `parseInt \|\| 0` for the numbers), the error is cleared, the list is unchanged |
| ProcessForm.Form.Submit | client/src/components/ProcessForm.js:23-63 | on the first failing check, that message is the error and nothing else changes; otherwise the draft is appended and the form reset, and the error is left as it was; a well-formed list stays well-formed |
| ProcessForm.Form.Remove | client/src/components/ProcessForm.js:65-67 | the list becomes the filtered list; the draft and error are unchanged; well-formedness is kept |

## Left out

- The HTTP request and response, the authenticated user, and the database insert of a simulation are left out: the dispatch takes its inputs as parameters and returns a `Result`. The `try`/`catch` that turns exceptions into "Server error" is left out too.
- The client's rendering, and how the page wires the quantum input to the request, are left out. The form's `processes` field stands for the parent's state that `setProcesses` replaces.
- JavaScript numbers are doubles. Times here are integers, and averages, utilisation and throughput are exact `real`s, so rounding and fractional times are not modelled.
- With fractional times the preemptive next-arrival bound can be below t+1. With integer times it is always t+1, as `Selection.NextArrival` states.
- Fcfs.Fcfs, NonPreemptive.NonPreemptive, Preemptive.Preemptive, RoundRobin.RoundRobin: these require at least one process, distinct pids, positive bursts and non-negative arrivals (`ValidProcesses`). The source does not check these. For an empty list the source returns an empty chart; the three averages are then `0 / 0` (NaN), while utilisation and throughput stay 0 because the non-empty-chart branch is skipped. With duplicate pids its `findIndex`, `processMap` and `processMetrics` conflate processes. The behaviour on such input is not modelled.
- NonPreemptive.NonPreemptive and Preemptive.Preemptive with the priority key require every process to carry a priority. The source compares `null` or `undefined` priorities with `<`, and that is not modelled.
- RoundRobin.RoundRobin requires a positive quantum. A negative `timeQuantum` passes `|| 1` unchanged and makes the source's loop never end. A non-integer quantum is outside the integer model.
- Simulator.RunSimulation requires a non-empty, valid process list (through `ValidProcesses`) only for the six known names. An empty list makes the source's averages `0 / 0` (NaN), which is not modelled. An unknown name is answered with "Algorithm not supported" for any process list.
- Metrics.CalculateMetrics: the source keeps the per-process times in a plain JavaScript object keyed by pid, and the model keeps them in a map. A pid such as `__proto__` sets the object's prototype instead of adding a key, so `Object.keys` drops that process from the totals, from the divisor `pids.length` and from the returned `processMetrics`. The model keeps every pid and always divides by the number of processes. Inherited-key behaviour of JavaScript objects is not modelled.
- Metrics.CalculateMetrics: utilisation and throughput divide by the span, so the method requires a non-zero span whenever the chart is non-empty. A zero span (infinite or NaN in the source) is not modelled. On every valid chart the span is positive (`Metrics.UtilisationBounded`).
- Round Robin sorts the copied jobs by arrival in the source. The model sorts the processes and then copies them, which gives the same list because the sort is stable and compares arrivals only.
- The loop bodies of Round Robin and of the preemptive strategies are separate methods (`RunSlice`, `RunChosen`) called from the loop. The loop structure is otherwise the source's.
- ProcessForm.ParseInt: skips ASCII white space, no-break space, the byte-order mark and the line and paragraph separators. The other Unicode space separators that `parseInt` also skips are not modelled. Doubles are not modelled either, so a huge digit string parses exactly rather than rounding.
- ProcessForm.Form.Change models only the four inputs the form renders. Inputs with other names, which the source's spread would add as new keys, are not modelled.
