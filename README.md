# Non-preemptive HRRN simulator — a verified model

This project models the dispatch engine of `HRRNSimulator`, a simulator of the
non-preemptive Highest Response Ratio Next (HRRN) CPU scheduling policy, in
Dafny, and proves what the engine promises. The model covers three parts:

- **The job record `Proc`.** Its identity, arrival, runtime and absolute
  deadline are fixed. Its `start` and `finish` hold -1 until the dispatcher
  writes them.
- **`simulateHRRN`.** It sorts the jobs by (arrival, id) and starts the clock
  at the first arrival. Then it loops until every job has run:
  - it admits every job that has arrived;
  - if nothing is ready, it jumps the clock to the next arrival;
  - otherwise it picks the ready job with the highest response ratio
    `(waiting + runtime) / runtime`. Ties go to the earlier arrival, then the
    smaller id. It runs that job to completion, writing its `start` and
    `finish`.

  Finally it returns the jobs sorted by id.
- **`generateDefault`.** It builds the built-in job set.

## Layout

| file | module | contents |
|---|---|---|
| `procs.dfy` | `Procs` | the `Proc` class (constant fields plus mutable `start`/`finish`), the two sort orders, distinctness of job objects |
| `sorting.dfy` | `Sorting` | a stable insertion sort used for both sorts the simulator performs |
| `selection.dfy` | `Selection` | waiting time, the exact ratio comparison, the tie-break order `Precedes`, its order laws, and the selection scan `SelectBest` |
| `schedule.dfy` | `Schedule` | what a finished schedule satisfies, first in dispatch order (`...At` forms over a list and its start times), then independent of list order |
| `loopstate.dfy` | `LoopState` | the invariant of the dispatch loop, split into groups |
| `simulator.dfy` | `Simulator` | admission, the loop body `Step`, the loop `Dispatch`, `SimulateHRRN`, and the lemmas that carry the invariant through each step |
| `generator.dfy` | `Generator` | the default job generator |

## How HRRNSimulator maps onto the model

- **Exact ratio comparison.** HRRNSimulator compares `double` ratios. The model
  compares `n_p / r_p` with `n_q / r_q` exactly, by cross-multiplication:
  `n_p * r_q` against `n_q * r_p`, with positive runtimes. `ResponseRatio`
  is the exact quotient as a `real`. The contracts of `HigherRatio`,
  `SameRatio` and `Precedes` prove the integer comparison equal to the
  comparison of these quotients. `Precedes(p, q, t)`
  is the scan's "replace the current best" test at lines 77-83: a higher
  ratio, or the same ratio and an earlier arrival, or the same ratio and
  arrival and a smaller id. It is proved to be a strict weak order. This
  makes a single linear scan find a maximum, and makes the maximum unique up
  to the first-listed of fully equal jobs.
- **The loop as imperative code.** The loop keeps its variables `time`,
  `nextIdx`, `ready` and `finished`:
  - the ready list is a `seq` that gets jobs appended and one removed;
  - the selected job's `start` and `finish` fields are written in place.
  - A ghost list `starts` records each run job's start time. The invariant
    (`LoopState.LoopInvariant`) is stated over it, and `LoopState.Recorded`
    ties it to the objects' fields.
- **The unreachable `break`.** The `break` at line 67 becomes `assert next' <
  |sorted|` in the idle branch of `Step`. It is proved: with nothing ready and
  jobs left to run, some job is still pending.
- **Clock start.** Lines 48-52 start the clock with `min(0, a0)` and then raise
  it to `a0` if it is lower. The model copies both steps. They always leave the
  clock at the first arrival, including a negative one. The code therefore
  accepts negative arrivals, and so does the model.
- **The invariant.** Every pass of the loop keeps six groups:
  - **Conservation.** The admitted prefix of the pending order is exactly the
    jobs run plus the jobs ready.
  - **Admission.** Ready jobs and admitted jobs have arrived.
  - **One CPU.** Causality, non-overlap, and the jobs run so far finished by
    the clock.
  - **The HRRN choice.** No job that had arrived and ran later outranked a job
    when it was dispatched.
  - **Idling.** The CPU idled only while nothing had arrived.
  - **The clock.** It equals the last finish, or it lies before every
    remaining arrival.
- **Termination.** The loop's measure is the number of jobs left to run, then
  the number still pending, then whether an idle jump is still due.

## Model

| member | source | states |
|---|---|---|
| `Procs.Proc.constructor` | HRRNSimulator.java:19-34 | the four constant fields take the given values; `start` and `finish` are -1 |
| `Procs.Le` | HRRNSimulator.java:39 | the comparator of both sorts (line 39, and by id alone at line 96): jobs whose keys agree may stand either way round, and in the pending order an earlier arrival always comes first and a later one never does |
| `Sorting.SortBy` | HRRNSimulator.java:39 | the result is a permutation of the input and ordered by the given order: (arrival, id) for the pending order, id for the report at line 96 |
| `Sorting.SortedIsUnique` | HRRNSimulator.java:39 | two sorted listings of the same jobs are equal when no two different jobs share a key |
| `Sorting.SortByDependsOnlyOnJobs` | HRRNSimulator.java:39 | with unique keys, the sort gives the same sequence for any listing of the same jobs, so the dispatch loop always sees the same pending order |
| `Sorting.SharedKeyKeepsInputOrder` | HRRNSimulator.java:39 | two different jobs with the same arrival and id come out of the sort in the order they were given, either way round |
| `Selection.Waiting` | HRRNSimulator.java:75 | the clamped waiting time is never negative; it is 0 exactly when the job has not arrived before `time`, and otherwise `arrival + waiting == time` |
| `Selection.ResponseRatio` | HRRNSimulator.java:73-76 | the exact ratio `(waiting + runtime) / runtime` is at least 1, and exactly 1 iff the job has not waited, so the first ready job always beats the initial best ratio -1 |
| `Selection.QuotientOrder` | HRRNSimulator.java:76-77 | two quotients with positive denominators compare (greater, equal) exactly as their cross products do |
| `Selection.RatioNumerator` | HRRNSimulator.java:76 | the numerator `waiting + runtime` is at least the runtime, and for a positive runtime it is the ratio times the runtime |
| `Selection.HigherRatio` | HRRNSimulator.java:77 | for positive runtimes, the cross-multiplied test holds iff `p`'s exact ratio is greater than `q`'s |
| `Selection.SameRatio` | HRRNSimulator.java:80 | for positive runtimes, the cross-multiplied test holds iff the two exact ratios are equal |
| `Selection.Precedes` | HRRNSimulator.java:77-83 | for positive runtimes, `p` replaces the current best `q` iff its exact ratio is greater, or equal with an earlier arrival, or equal with the same arrival and a smaller id |
| `Selection.CrossChain` | HRRNSimulator.java:76-77 | comparing fractions by cross-multiplication with positive denominators is transitive, and strictly so when either step is strict |
| `Selection.PrecedesTransitive` | HRRNSimulator.java:77-83 | the dispatch order (higher ratio, then earlier arrival, then smaller id) is transitive |
| `Selection.PrecedesThroughNotPreceded` | HRRNSimulator.java:77-83 | if p goes before q and r does not go before q, then p goes before r: the order is a strict weak order |
| `Selection.SmallerIdBreaksTie` | HRRNSimulator.java:80-83 | two jobs with arrival 0 and runtime 5 have equal ratios at time 0, and id 1 goes before id 2 and not the reverse |
| `Selection.EarlierArrivalBreaksTie` | HRRNSimulator.java:80-83 | at time 10, a job (arrival 0, runtime 20) and a job (arrival 9, runtime 2) have equal ratios, and the earlier arrival goes first and not the reverse |
| `Selection.SelectionIsUnique` | HRRNSimulator.java:72-85 | at most one index of the ready list is the selected one, so the choice is deterministic |
| `Selection.SelectBest` | HRRNSimulator.java:72-85 | returns an index `b` such that no ready job goes before `ready[b]` (highest ratio, ties to earlier arrival then smaller id), and `ready[b]` goes before every job listed ahead of it |
| `Schedule.StartsIncrease` | HRRNSimulator.java:89-91 | in a one-CPU schedule with positive runtimes, jobs start in the order they were dispatched |
| `Schedule.DisjointFromNonOverlapping` | HRRNSimulator.java:89-92 | a dispatch-order schedule in which each job ends before the next starts has pairwise disjoint `[start, finish)` intervals |
| `Schedule.RatioRespectedFromHighestRatioFirst` | HRRNSimulator.java:72-92 | the HRRN choice, stated along the dispatch order, still holds when the jobs are compared only by their start times |
| `Schedule.IdleOnlyWhenNothingArrivedFromReady` | HRRNSimulator.java:61-65 | a job that did not start as another finished started on an idle CPU, and no job that started later had arrived before it |
| `Schedule.OrderFree` | HRRNSimulator.java:89-96 | the three facts above hold together of a finished dispatch-order schedule |
| `Simulator.Admit` | HRRNSimulator.java:56-59 | the cursor only moves forward; the ready list becomes the old ready list followed by the admitted slice in pending order; every admitted job has arrived by `time`; the job at the cursor, if any, has not |
| `Simulator.AdmitKeepsInvariant` | HRRNSimulator.java:56-59 | admission keeps the loop invariant |
| `Simulator.PendingAfter` | HRRNSimulator.java:56-59 | because the pending order is sorted by arrival, once admission stops every job still pending arrives after `time` |
| `Simulator.PendingWhenNothingReady` | HRRNSimulator.java:61-68 | with nothing ready and fewer jobs run than input, some job is still pending, so the `break` at line 67 is never reached |
| `Simulator.IdleJumpKeepsInvariant` | HRRNSimulator.java:63-65 | moving the clock forward to the next pending arrival while nothing is ready keeps the loop invariant |
| `Simulator.IdleStep` | HRRNSimulator.java:61-65 | a pass that finds nothing ready has a pending job that arrives after `time`, and the invariant holds with the clock at exactly that arrival |
| `Simulator.AdmittedRuntimesPositive` | HRRNSimulator.java:74-76 | every ready job is an input job, so every ratio has a positive divisor |
| `Simulator.SelectedNotRunYet` | HRRNSimulator.java:88-92 | the selected job is an input job that has not run yet, so it runs exactly once |
| `Simulator.DispatchKeepsInvariant` | HRRNSimulator.java:87-92 | removing the selected job from the ready list, starting it at `time` and advancing the clock by its runtime keeps the loop invariant |
| `Simulator.DispatchStep` | HRRNSimulator.java:72-92 | a pass that admits and then dispatches the selected job keeps the loop invariant; the job is an input job not yet run |
| `Simulator.InitialInvariant` | HRRNSimulator.java:41-52 | the invariant holds before the first pass, with the clock at the first arrival and nothing admitted |
| `Simulator.AllRun` | HRRNSimulator.java:54 | once as many jobs have run as were input, the jobs run are exactly the input jobs, each once |
| `Simulator.Finish` | HRRNSimulator.java:54-93 | at loop exit, the run list is a permutation of the input, and each job's fields show causality and `finish == start + runtime` |
| `Simulator.Record` | HRRNSimulator.java:89-91 | the selected job gets `start = time` and `finish = time + runtime`, and the jobs run before keep their recorded fields |
| `Simulator.Step` | HRRNSimulator.java:55-92 | one pass keeps the invariant, and the clock and the cursor never go back. Either exactly one job is appended, started at the current clock, with the clock advanced by its runtime; or nothing was ready and the clock jumped forward to exactly the next arrival. Every job other than the one dispatched in this pass keeps its `start` and `finish` |
| `Simulator.Dispatch` | HRRNSimulator.java:41-93 | the loop ends with every input job run exactly once, at a start no earlier than its arrival and with `finish == start + runtime`. The runs do not overlap, each dispatch chose the highest-ranked job that had arrived, and the CPU idled only while nothing had arrived |
| `Simulator.SameJobsSameSchedule` | HRRNSimulator.java:95-97 | re-listing the jobs, as the final sort by id does, changes none of the schedule facts |
| `Simulator.SimulateHRRN` | HRRNSimulator.java:37-98 | returns the input jobs, each exactly once, sorted by id. Each is scheduled no earlier than its arrival with `finish == start + runtime`. No two ran at once, none was passed over for a job that ranked lower when it was dispatched, and the CPU idled only until the next arrival |
| `Generator.DefaultArrival` | HRRNSimulator.java:103-105 | every default arrival is a multiple of 5, and it is 0 exactly for the first ten ids |
| `Generator.DefaultRuntime` | HRRNSimulator.java:107 | every default runtime is a multiple of 5 between 5 and 50 |
| `Generator.DefaultDeadline` | HRRNSimulator.java:108-109 | every default deadline lies exactly twice the runtime after the arrival |
| `Generator.DefaultArrivalMonotone` | HRRNSimulator.java:103-105 | default arrivals never decrease with the id |
| `Generator.GenerateDefault` | HRRNSimulator.java:100-114 | a negative count gives the illegal-capacity error. Otherwise the result holds `count` jobs with ids `0..count-1` in order, the arrival, runtime and deadline formulas, and no schedule yet |
| `Generator.DefaultJobsAreValidInput` | HRRNSimulator.java:100-114 | the default job set is sorted by (arrival, id), holds each job once, and has runtimes in [5, 50] with deadline - arrival = 2 * runtime: a valid input to the simulator |

## Left out

- `main` (HRRNSimulator.java:166-184), `loadCsv` and `printReport` are not part
  of this model: they are console and file I/O, number parsing and
  floating-point report formatting.
- Selection.Precedes: compares ratios exactly, where HRRNSimulator compares
  `double` quotients. Two different ratios closer than double rounding would
  compare equal in HRRNSimulator. That takes the numerator `waiting + runtime` of
  one job times the runtime of the other to exceed about 2^52. With waiting
  times near 2^31, runtimes of about two million are enough.
- Integer width: the model uses unbounded integers. HRRNSimulator's 32-bit `int`
  would wrap in `time += best.runtime`, in `time - p.arrival`, and in
  `5 * (id - 9)` for ids above about 429 million.
- Simulator.SimulateHRRN: requires positive runtimes, so zero and negative
  runtimes are not modelled. With a zero runtime, line 76 divides by 0.0:
  - A zero-runtime job that has waited gets ratio +Infinity. That beats every
    finite ratio at line 77, ties among infinite ratios go through line 81,
    and the job runs with `finish == start`. For example, with jobs
    (id 1, arrival 0, runtime 3) and (id 2, arrival 1, runtime 0), job 1 runs
    from 0 to 3 and job 2 from 3 to 3.
  - A zero-runtime job that has not waited gets NaN, which loses every
    comparison. When every ready job is of this kind, `best` stays null and
    line 88-89 fails with a null dereference.
  - A negative runtime makes the ratio meaningless.
- Simulator.SimulateHRRN: requires the input to hold each job object at most
  once. HRRNSimulator removes the first occurrence from the ready list. A job
  listed twice would run twice, and its second run would overwrite its fields.
- Simulator.SimulateHRRN: does not model the reordering of the caller's list.
  HRRNSimulator sorts its argument list in place at line 39. The model sorts a
  copy, and the caller's sequence is left as it was.
- Sorting.SortBy: stability is not stated. HRRNSimulator's `List.sort` is stable,
  and so is the insertion sort here, but no contract says so. It decides the
  order only among distinct jobs that share both arrival and id (pending
  order) or share an id (report order).
- Simulator.SimulateHRRN: the order of the result among jobs with equal ids is
  not stated. The result is only promised to be sorted by id.
- Simulator.SimulateHRRN: determinism is proved only for the pending order.
  `Sorting.SortByDependsOnlyOnJobs` shows that any listing of the same jobs
  with unique (arrival, id) keys gives the same pending order. No lemma states
  that the dispatch loop's start and finish times are a function of that
  order. With shared keys the outcome depends on the input listing:
  `Sorting.SharedKeyKeepsInputOrder` shows the sort keeps such jobs in input
  order. For example, jobs (id 1, arrival 0, runtime 5) and (id 1, arrival 0,
  runtime 3) both have ratio 1 at time 0, and line 81 keeps the first listed,
  so they run in input order.
- Generator.GenerateDefault: the contract does not promise that the jobs are
  newly allocated objects.
