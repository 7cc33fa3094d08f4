/** The state of the dispatch loop and the invariant it keeps: the clock
    `time`, the cursor `next` into the pending order `sorted`, the ready
    list, and the jobs run so far with their start times. */
module LoopState {
  import opened Procs
  import opened Sorting
  import opened Selection
  import opened Schedule

  /** What holds of the input throughout a run. */
  ghost predicate WellFormedInput(sorted: seq<Proc>) {
    && SortedBy(ByArrivalThenId, sorted)
    && (forall p :: p in sorted ==> p.runtime > 0)
    && (forall p :: p in sorted ==> multiset(sorted)[p] == 1)
  }

  /** The jobs admitted so far, `sorted[..next]`, are exactly the jobs run
      and the jobs ready; the rest, `sorted[next..]`, are still pending. */
  ghost predicate Conserved(sorted: seq<Proc>, next: nat, ready: seq<Proc>, finished: seq<Proc>) {
    && next <= |sorted|
    && multiset(finished) + multiset(ready) == multiset(sorted[..next])
  }

  /** Admission: a job is admitted only once it has arrived. */
  ghost predicate Admitted(sorted: seq<Proc>, next: nat, time: int, ready: seq<Proc>)
    requires next <= |sorted|
  {
    && (forall q :: q in ready ==> q.arrival <= time)
    && (forall i :: 0 <= i < next ==> sorted[i].arrival <= time)
  }

  /** Causality and one-at-a-time execution of the jobs run so far, all of
      which finished by `time`. */
  ghost predicate RunSoFar(time: int, finished: seq<Proc>, starts: seq<int>) {
    && |starts| == |finished|
    && (forall k :: 0 <= k < |finished| ==> finished[k].arrival <= starts[k])
    && NonOverlappingAt(finished, starts)
    && (forall k :: 0 <= k < |finished| ==> starts[k] + finished[k].runtime <= time)
  }

  /** The HRRN choice for the jobs run so far, also against the jobs still
      ready; the jobs still pending arrived after every start so far. */
  ghost predicate ChoiceSoFar(sorted: seq<Proc>, next: nat, ready: seq<Proc>,
                              finished: seq<Proc>, starts: seq<int>)
    requires next <= |sorted| && |starts| == |finished|
  {
    && HighestRatioFirstAt(finished, starts)
    && (forall k, q :: 0 <= k < |finished| && q in ready && q.arrival <= starts[k] ==>
          !Precedes(q, finished[k], starts[k]))
    && (forall k, i :: 0 <= k < |finished| && next <= i < |sorted| ==> starts[k] < sorted[i].arrival)
  }

  /** Idling for the jobs run so far, also against the jobs still ready. */
  ghost predicate IdleSoFar(ready: seq<Proc>, finished: seq<Proc>, starts: seq<int>)
    requires |starts| == |finished|
  {
    && IdlesOnlyWhenNothingReadyAt(finished, starts)
    && (forall k, q :: 0 <= k < |finished| && IdleBeforeAt(finished, starts, k) && q in ready ==>
          starts[k] <= q.arrival)
  }

  /** The clock is the last finish, or the CPU has idled only up to the
      earliest arrival among the jobs not yet run. */
  ghost predicate ClockAt(sorted: seq<Proc>, next: nat, time: int, ready: seq<Proc>,
                          finished: seq<Proc>, starts: seq<int>)
    requires next <= |sorted| && |starts| == |finished|
  {
    || (|finished| > 0 && time == starts[|finished| - 1] + finished[|finished| - 1].runtime)
    || ((forall q :: q in ready ==> time <= q.arrival) &&
        (forall i :: next <= i < |sorted| ==> time <= sorted[i].arrival))
  }

  ghost predicate LoopInvariant(sorted: seq<Proc>, next: nat, time: int, ready: seq<Proc>,
                                finished: seq<Proc>, starts: seq<int>)
  {
    && Conserved(sorted, next, ready, finished)
    && Admitted(sorted, next, time, ready)
    && RunSoFar(time, finished, starts)
    && ChoiceSoFar(sorted, next, ready, finished, starts)
    && IdleSoFar(ready, finished, starts)
    && ClockAt(sorted, next, time, ready, finished, starts)
  }

  /** The start and finish fields of the jobs run so far hold their schedule. */
  ghost predicate Recorded(finished: seq<Proc>, starts: seq<int>)
    reads finished
  {
    && |starts| == |finished|
    && forall k :: 0 <= k < |finished| ==>
         finished[k].start == starts[k] && finished[k].finish == starts[k] + finished[k].runtime
  }
}
