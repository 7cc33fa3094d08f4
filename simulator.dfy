/** The non-preemptive HRRN dispatcher: admission of arrived jobs, idle
    jumps to the next arrival, and run-to-completion dispatch of the job the
    selection policy picks. */
module Simulator {
  import opened Procs
  import opened Sorting
  import opened Selection
  import opened Schedule
  import opened LoopState

  // ---------------------------------------------------------------------------
  // Admission
  // ---------------------------------------------------------------------------

  /** Admission: moves every pending job that has arrived by `time` from
      `sorted[from..]` to the end of `ready`, keeping the pending order. */
  method Admit(sorted: seq<Proc>, from: nat, time: int, ready: seq<Proc>)
    returns (next: nat, admitted: seq<Proc>)
    requires from <= |sorted|
    ensures from <= next <= |sorted|
    ensures admitted == ready + sorted[from..next]
    ensures forall i :: from <= i < next ==> sorted[i].arrival <= time
    ensures next == |sorted| || time < sorted[next].arrival
  {
    next, admitted := from, ready;
    while next < |sorted| && sorted[next].arrival <= time
      invariant from <= next <= |sorted|
      invariant admitted == ready + sorted[from..next]
      invariant forall i :: from <= i < next ==> sorted[i].arrival <= time
    {
      admitted := admitted + [sorted[next]];
      next := next + 1;
    }
  }

  /** A job added to the ready list by admission comes from the pending slice. */
  lemma AdmittedFrom(sorted: seq<Proc>, from: nat, next: nat, ready: seq<Proc>, q: Proc)
    requires from <= next <= |sorted|
    requires q in ready + sorted[from..next]
    ensures q in ready || exists i :: from <= i < next && sorted[i] == q
  {
    if q !in ready {
      var m :| 0 <= m < next - from && sorted[from..next][m] == q;
      assert sorted[from + m] == q;
    }
  }

  lemma AdmitKeepsConserved(sorted: seq<Proc>, from: nat, next: nat, ready: seq<Proc>, finished: seq<Proc>)
    requires Conserved(sorted, from, ready, finished)
    requires from <= next <= |sorted|
    ensures Conserved(sorted, next, ready + sorted[from..next], finished)
  {
    assert sorted[..next] == sorted[..from] + sorted[from..next];
  }

  lemma AdmitKeepsAdmitted(sorted: seq<Proc>, from: nat, next: nat, time: int, ready: seq<Proc>)
    requires from <= next <= |sorted|
    requires Admitted(sorted, from, time, ready)
    requires forall i :: from <= i < next ==> sorted[i].arrival <= time
    ensures Admitted(sorted, next, time, ready + sorted[from..next])
  {
    forall q | q in ready + sorted[from..next] ensures q.arrival <= time {
      AdmittedFrom(sorted, from, next, ready, q);
    }
  }

  lemma AdmitKeepsChoiceAndIdle(sorted: seq<Proc>, from: nat, next: nat, ready: seq<Proc>,
                                finished: seq<Proc>, starts: seq<int>)
    requires from <= next <= |sorted| && |starts| == |finished|
    requires ChoiceSoFar(sorted, from, ready, finished, starts)
    requires IdleSoFar(ready, finished, starts)
    ensures ChoiceSoFar(sorted, next, ready + sorted[from..next], finished, starts)
    ensures IdleSoFar(ready + sorted[from..next], finished, starts)
  {
    forall k, q | 0 <= k < |finished| && q in ready + sorted[from..next] && q !in ready
      ensures starts[k] < q.arrival
    {
      AdmittedFrom(sorted, from, next, ready, q);
    }
  }

  lemma AdmitKeepsClock(sorted: seq<Proc>, from: nat, next: nat, time: int, ready: seq<Proc>,
                        finished: seq<Proc>, starts: seq<int>)
    requires from <= next <= |sorted| && |starts| == |finished|
    requires ClockAt(sorted, from, time, ready, finished, starts)
    ensures ClockAt(sorted, next, time, ready + sorted[from..next], finished, starts)
  {
    forall q | q in ready + sorted[from..next] && q !in ready
      ensures (forall i :: from <= i < |sorted| ==> time <= sorted[i].arrival) ==> time <= q.arrival
    {
      AdmittedFrom(sorted, from, next, ready, q);
    }
  }

  lemma AdmitKeepsInvariant(sorted: seq<Proc>, from: nat, next: nat, time: int, ready: seq<Proc>,
                            finished: seq<Proc>, starts: seq<int>)
    requires LoopInvariant(sorted, from, time, ready, finished, starts)
    requires from <= next <= |sorted|
    requires forall i :: from <= i < next ==> sorted[i].arrival <= time
    ensures LoopInvariant(sorted, next, time, ready + sorted[from..next], finished, starts)
  {
    AdmitKeepsConserved(sorted, from, next, ready, finished);
    AdmitKeepsAdmitted(sorted, from, next, time, ready);
    AdmitKeepsChoiceAndIdle(sorted, from, next, ready, finished, starts);
    AdmitKeepsClock(sorted, from, next, time, ready, finished, starts);
  }

  // ---------------------------------------------------------------------------
  // Idle jump
  // ---------------------------------------------------------------------------

  /** Once admission stops at `next`, every pending job arrives after `time`. */
  lemma PendingAfter(sorted: seq<Proc>, next: nat, time: int)
    requires SortedBy(ByArrivalThenId, sorted)
    requires next <= |sorted|
    requires next == |sorted| || time < sorted[next].arrival
    ensures forall i :: next <= i < |sorted| ==> time < sorted[i].arrival
  {
    forall i | next < i < |sorted|
      ensures time < sorted[i].arrival
    {
      assert Le(ByArrivalThenId, sorted[next], sorted[i]);
    }
  }

  /** With nothing ready and fewer jobs run than input, some job is pending. */
  lemma PendingWhenNothingReady(sorted: seq<Proc>, next: nat, finished: seq<Proc>)
    requires Conserved(sorted, next, [], finished)
    requires |finished| < |sorted|
    ensures next < |sorted|
  {
    assert |multiset(finished)| == |multiset(sorted[..next])|;
  }

  lemma IdleJumpKeepsInvariant(sorted: seq<Proc>, next: nat, time: int,
                               finished: seq<Proc>, starts: seq<int>)
    requires WellFormedInput(sorted)
    requires LoopInvariant(sorted, next, time, [], finished, starts)
    requires next < |sorted| && time < sorted[next].arrival
    ensures LoopInvariant(sorted, next, sorted[next].arrival, [], finished, starts)
  {
    forall i | next < i < |sorted|
      ensures sorted[next].arrival <= sorted[i].arrival
    {
      assert Le(ByArrivalThenId, sorted[next], sorted[i]);
    }
  }

  // ---------------------------------------------------------------------------
  // Dispatch
  // ---------------------------------------------------------------------------

  /** Every job admitted is an input job, so its runtime is positive. */
  lemma AdmittedRuntimesPositive(sorted: seq<Proc>, from: nat, next: nat, ready: seq<Proc>, finished: seq<Proc>)
    requires WellFormedInput(sorted)
    requires Conserved(sorted, from, ready, finished)
    requires from <= next <= |sorted|
    ensures forall p :: p in ready + sorted[from..next] ==> p.runtime > 0
  {
    forall p | p in ready + sorted[from..next]
      ensures p.runtime > 0
    {
      AdmittedFrom(sorted, from, next, ready, p);
      if p in ready {
        assert sorted == sorted[..from] + sorted[from..];
        assert p in multiset(ready);
        assert p in multiset(sorted[..from]);
      }
    }
  }

  /** The selected job is an input job that has not run yet. */
  lemma SelectedNotRunYet(sorted: seq<Proc>, next: nat, ready: seq<Proc>, finished: seq<Proc>, b: nat)
    requires WellFormedInput(sorted)
    requires Conserved(sorted, next, ready, finished)
    requires b < |ready|
    ensures ready[b] in sorted && ready[b] !in finished && ready[b].runtime > 0
  {
    var best := ready[b];
    assert sorted == sorted[..next] + sorted[next..];
    assert best in multiset(ready);
    assert best in multiset(sorted[..next]);
    assert multiset(sorted)[best] == 1;
    assert multiset(finished)[best] + multiset(ready)[best] <= 1;
  }

  lemma DispatchKeepsConserved(sorted: seq<Proc>, next: nat, ready: seq<Proc>, finished: seq<Proc>, b: nat)
    requires Conserved(sorted, next, ready, finished)
    requires b < |ready|
    ensures Conserved(sorted, next, ready[..b] + ready[b + 1..], finished + [ready[b]])
  {
    assert ready == ready[..b] + [ready[b]] + ready[b + 1..];
  }

  lemma DispatchKeepsAdmitted(sorted: seq<Proc>, next: nat, time: int, ready: seq<Proc>, b: nat, d: nat)
    requires next <= |sorted|
    requires Admitted(sorted, next, time, ready)
    requires b < |ready|
    ensures Admitted(sorted, next, time + d, ready[..b] + ready[b + 1..])
  {
    assert ready == ready[..b] + [ready[b]] + ready[b + 1..];
  }

  lemma DispatchKeepsRunSoFar(time: int, finished: seq<Proc>, starts: seq<int>, best: Proc)
    requires RunSoFar(time, finished, starts)
    requires best.arrival <= time && best.runtime > 0
    ensures RunSoFar(time + best.runtime, finished + [best], starts + [time])
  {
  }

  lemma DispatchKeepsChoice(sorted: seq<Proc>, next: nat, time: int, ready: seq<Proc>,
                            finished: seq<Proc>, starts: seq<int>, b: nat)
    requires next <= |sorted| && |starts| == |finished|
    requires ChoiceSoFar(sorted, next, ready, finished, starts)
    requires forall i :: next <= i < |sorted| ==> time < sorted[i].arrival
    requires IsSelected(ready, time, b)
    ensures ChoiceSoFar(sorted, next, ready[..b] + ready[b + 1..], finished + [ready[b]], starts + [time])
  {
    var best := ready[b];
    var finished', starts' := finished + [best], starts + [time];
    assert ready == ready[..b] + [best] + ready[b + 1..];
    forall q | q in ready
      ensures !Precedes(q, best, time)
    {
      var j :| 0 <= j < |ready| && ready[j] == q;
    }
    forall k, j | 0 <= k < j < |finished'| && finished'[j].arrival <= starts'[k]
      ensures !Precedes(finished'[j], finished'[k], starts'[k])
    {
      if j == |finished| {
        assert finished'[j] == best && best in ready;
      }
    }
  }

  /** Removing the job at `b` leaves jobs that were all ready. */
  lemma RemoveAt(ready: seq<Proc>, b: nat)
    requires b < |ready|
    ensures forall q :: q in ready[..b] + ready[b + 1..] ==> q in ready
  {
    assert ready == ready[..b] + [ready[b]] + ready[b + 1..];
  }

  /** Appending a job does not change whether the CPU idled before an earlier one. */
  lemma IdleBeforeAppend(finished: seq<Proc>, starts: seq<int>, best: Proc, time: int, k: nat)
    requires |starts| == |finished| && k < |finished|
    ensures IdleBeforeAt(finished + [best], starts + [time], k) == IdleBeforeAt(finished, starts, k)
  {
    if k > 0 {
      assert (finished + [best])[k - 1] == finished[k - 1];
      assert (starts + [time])[k - 1] == starts[k - 1];
    }
  }

  /** Right after a dispatch at `time`, the CPU counts as idle before the new
      job only if the clock had not reached any ready job's arrival. */
  lemma IdleBeforeDispatch(sorted: seq<Proc>, next: nat, time: int, ready: seq<Proc>, best: Proc,
                           finished: seq<Proc>, starts: seq<int>)
    requires next <= |sorted| && |starts| == |finished|
    requires ClockAt(sorted, next, time, ready, finished, starts)
    requires IdleBeforeAt(finished + [best], starts + [time], |finished|)
    ensures forall q :: q in ready ==> time <= q.arrival
  {
    if |finished| > 0 {
      assert (finished + [best])[|finished| - 1] == finished[|finished| - 1];
      assert (starts + [time])[|finished| - 1] == starts[|finished| - 1];
    }
  }

  lemma DispatchKeepsIdleRun(sorted: seq<Proc>, next: nat, time: int, ready: seq<Proc>,
                             best: Proc, finished: seq<Proc>, starts: seq<int>)
    requires next <= |sorted| && |starts| == |finished|
    requires IdleSoFar(ready, finished, starts)
    requires ClockAt(sorted, next, time, ready, finished, starts)
    requires best in ready
    ensures IdlesOnlyWhenNothingReadyAt(finished + [best], starts + [time])
  {
    var finished', starts' := finished + [best], starts + [time];
    var n := |finished|;
    forall k, j | 0 <= k <= j < |finished'| && IdleBeforeAt(finished', starts', k)
      ensures starts'[k] <= finished'[j].arrival
    {
      if k < n {
        IdleBeforeAppend(finished, starts, best, time, k);
        if j < n {
          assert finished'[j] == finished[j] && starts'[k] == starts[k];
        } else {
          assert finished'[j] == best && starts'[k] == starts[k];
        }
      } else {
        IdleBeforeDispatch(sorted, next, time, ready, best, finished, starts);
        assert finished'[j] == best && starts'[k] == time;
      }
    }
  }

  lemma DispatchKeepsIdleReady(sorted: seq<Proc>, next: nat, time: int, ready: seq<Proc>, rest: seq<Proc>,
                               best: Proc, finished: seq<Proc>, starts: seq<int>)
    requires next <= |sorted| && |starts| == |finished|
    requires IdleSoFar(ready, finished, starts)
    requires ClockAt(sorted, next, time, ready, finished, starts)
    requires forall q :: q in rest ==> q in ready
    ensures forall k, q ::
              0 <= k < |finished + [best]| && IdleBeforeAt(finished + [best], starts + [time], k) && q in rest ==>
              (starts + [time])[k] <= q.arrival
  {
    var finished', starts' := finished + [best], starts + [time];
    var n := |finished|;
    forall k, q | 0 <= k < |finished'| && IdleBeforeAt(finished', starts', k) && q in rest
      ensures starts'[k] <= q.arrival
    {
      assert q in ready;
      if k < n {
        IdleBeforeAppend(finished, starts, best, time, k);
        assert starts'[k] == starts[k];
      } else {
        IdleBeforeDispatch(sorted, next, time, ready, best, finished, starts);
        assert starts'[k] == time;
      }
    }
  }

  lemma DispatchKeepsIdle(sorted: seq<Proc>, next: nat, time: int, ready: seq<Proc>, rest: seq<Proc>,
                          best: Proc, finished: seq<Proc>, starts: seq<int>)
    requires next <= |sorted| && |starts| == |finished|
    requires IdleSoFar(ready, finished, starts)
    requires ClockAt(sorted, next, time, ready, finished, starts)
    requires best in ready
    requires forall q :: q in rest ==> q in ready
    ensures IdleSoFar(rest, finished + [best], starts + [time])
  {
    DispatchKeepsIdleRun(sorted, next, time, ready, best, finished, starts);
    DispatchKeepsIdleReady(sorted, next, time, ready, rest, best, finished, starts);
  }

  lemma DispatchKeepsInvariant(sorted: seq<Proc>, next: nat, time: int, ready: seq<Proc>,
                               finished: seq<Proc>, starts: seq<int>, b: nat)
    requires WellFormedInput(sorted)
    requires LoopInvariant(sorted, next, time, ready, finished, starts)
    requires next == |sorted| || time < sorted[next].arrival
    requires IsSelected(ready, time, b)
    ensures LoopInvariant(sorted, next, time + ready[b].runtime, ready[..b] + ready[b + 1..],
                          finished + [ready[b]], starts + [time])
  {
    SelectedNotRunYet(sorted, next, ready, finished, b);
    PendingAfter(sorted, next, time);
    DispatchKeepsConserved(sorted, next, ready, finished, b);
    DispatchKeepsAdmitted(sorted, next, time, ready, b, ready[b].runtime);
    DispatchKeepsRunSoFar(time, finished, starts, ready[b]);
    DispatchKeepsChoice(sorted, next, time, ready, finished, starts, b);
    RemoveAt(ready, b);
    DispatchKeepsIdle(sorted, next, time, ready, ready[..b] + ready[b + 1..], ready[b], finished, starts);
  }

  // ---------------------------------------------------------------------------
  // The loop
  // ---------------------------------------------------------------------------

  lemma InitialInvariant(sorted: seq<Proc>, time: int)
    requires WellFormedInput(sorted)
    requires |sorted| > 0 ==> time == sorted[0].arrival
    ensures LoopInvariant(sorted, 0, time, [], [], [])
  {
    forall i | 0 < i < |sorted|
      ensures time <= sorted[i].arrival
    {
      assert Le(ByArrivalThenId, sorted[0], sorted[i]);
    }
  }

  /** Once as many jobs have run as were input, they are exactly the input. */
  lemma AllRun(sorted: seq<Proc>, next: nat, ready: seq<Proc>, finished: seq<Proc>)
    requires Conserved(sorted, next, ready, finished)
    requires |finished| >= |sorted|
    ensures multiset(finished) == multiset(sorted)
  {
    assert |multiset(finished)| + |multiset(ready)| == |multiset(sorted[..next])|;
    assert ready == [] && sorted[..next] == sorted;
  }

  /** When the loop ends, every input job has run once and the fields written
      along the way describe the schedule the invariant speaks of. */
  lemma Finish(sorted: seq<Proc>, next: nat, time: int, ready: seq<Proc>,
               finished: seq<Proc>, starts: seq<int>)
    requires LoopInvariant(sorted, next, time, ready, finished, starts)
    requires Recorded(finished, starts)
    requires |finished| >= |sorted|
    ensures multiset(finished) == multiset(sorted)
    ensures forall k :: 0 <= k < |finished| ==> Scheduled(finished[k])
    ensures NonOverlapping(finished)
    ensures HighestRatioFirst(finished)
    ensures IdlesOnlyWhenNothingReady(finished)
  {
    AllRun(sorted, next, ready, finished);
    assert Starts(finished) == starts;
  }

  lemma WellFormed(sorted: seq<Proc>)
    requires SortedBy(ByArrivalThenId, sorted)
    requires Distinct(sorted)
    requires forall p :: p in sorted ==> p.runtime > 0
    ensures WellFormedInput(sorted)
  {
    DistinctIffSingleCounts(sorted);
  }

  /** Runs `best` to completion from `time`: writes its start and finish. */
  method Record(best: Proc, time: int, ghost finished: seq<Proc>, ghost starts: seq<int>)
    requires Recorded(finished, starts)
    requires best !in finished
    modifies best
    ensures best.start == time && best.finish == time + best.runtime
    ensures Recorded(finished + [best], starts + [time])
  {
    best.start := time;
    best.finish := time + best.runtime;
  }

  /** A pass that admits nothing and finds nothing ready jumps the clock to
      the next arrival, which exists while jobs remain to run. */
  lemma IdleStep(sorted: seq<Proc>, from: nat, next: nat, time: int, ready: seq<Proc>,
                 finished: seq<Proc>, starts: seq<int>)
    requires WellFormedInput(sorted)
    requires LoopInvariant(sorted, from, time, ready, finished, starts)
    requires from <= next <= |sorted|
    requires forall i :: from <= i < next ==> sorted[i].arrival <= time
    requires next == |sorted| || time < sorted[next].arrival
    requires ready + sorted[from..next] == []
    requires |finished| < |sorted|
    ensures next < |sorted| && time < sorted[next].arrival
    ensures LoopInvariant(sorted, next, sorted[next].arrival, [], finished, starts)
  {
    AdmitKeepsInvariant(sorted, from, next, time, ready, finished, starts);
    PendingWhenNothingReady(sorted, next, finished);
    IdleJumpKeepsInvariant(sorted, next, time, finished, starts);
  }

  /** A pass that admits `sorted[from..next]` and selects `admitted[b]` runs
      that job, which has not run before, from `time` on. */
  lemma DispatchStep(sorted: seq<Proc>, from: nat, next: nat, time: int, ready: seq<Proc>,
                     admitted: seq<Proc>, finished: seq<Proc>, starts: seq<int>, b: nat)
    requires WellFormedInput(sorted)
    requires LoopInvariant(sorted, from, time, ready, finished, starts)
    requires from <= next <= |sorted|
    requires forall i :: from <= i < next ==> sorted[i].arrival <= time
    requires next == |sorted| || time < sorted[next].arrival
    requires admitted == ready + sorted[from..next]
    requires IsSelected(admitted, time, b)
    ensures admitted[b] in sorted && admitted[b] !in finished
    ensures LoopInvariant(sorted, next, time + admitted[b].runtime, admitted[..b] + admitted[b + 1..],
                          finished + [admitted[b]], starts + [time])
  {
    AdmitKeepsInvariant(sorted, from, next, time, ready, finished, starts);
    SelectedNotRunYet(sorted, next, admitted, finished, b);
    DispatchKeepsInvariant(sorted, next, time, admitted, finished, starts, b);
  }

  /** One pass of the dispatch loop: admit every job that has arrived; then
      either jump the idle clock to the next arrival, or run the selected job
      to completion. */
  method Step(sorted: seq<Proc>, next: nat, time: int, ready: seq<Proc>,
              finished: seq<Proc>, ghost starts: seq<int>)
    returns (next': nat, time': int, ready': seq<Proc>, finished': seq<Proc>, ghost starts': seq<int>)
    requires WellFormedInput(sorted)
    requires LoopInvariant(sorted, next, time, ready, finished, starts)
    requires Recorded(finished, starts)
    requires |finished| < |sorted|
    modifies sorted
    ensures LoopInvariant(sorted, next', time', ready', finished', starts')
    ensures Recorded(finished', starts')
    ensures next <= next' && time <= time'
    // Either one more job ran, from the current clock on ...
    ensures || (|finished'| == |finished| + 1 && finished'[..|finished|] == finished &&
                starts'[|finished|] == time && time' == time + finished'[|finished|].runtime)
    // ... or nothing was ready, and the clock jumped forward to the next arrival.
            || (finished' == finished && ready' == [] && next' < |sorted| &&
                time < sorted[next'].arrival && time' == sorted[next'].arrival)
    // Start and finish are written only for the job dispatched in this pass.
    ensures forall p :: p in sorted && p !in finished'[|finished|..] ==>
              p.start == old(p.start) && p.finish == old(p.finish)
  {
    next', ready' := Admit(sorted, next, time, ready);
    if ready' == [] {
      // Nothing has arrived yet: jump the clock to the next arrival. The
      // fall-back `break` of HRRNSimulator for "nothing pending either" is
      // unreachable.
      IdleStep(sorted, next, next', time, ready, finished, starts);
      assert next' < |sorted|;
      time' := if time < sorted[next'].arrival then sorted[next'].arrival else time;
      finished', starts' := finished, starts;
    } else {
      AdmittedRuntimesPositive(sorted, next, next', ready, finished);
      var b := SelectBest(ready', time);
      var best := ready'[b];
      DispatchStep(sorted, next, next', time, ready, ready', finished, starts, b);
      Record(best, time, finished, starts);
      ready' := ready'[..b] + ready'[b + 1..];
      starts' := starts + [time];
      time' := time + best.runtime;
      finished' := finished + [best];
    }
  }

  /** The dispatch loop over jobs already in pending order. Returns the jobs
      in the order they ran, with start and finish written. */
  method Dispatch(sorted: seq<Proc>) returns (finished: seq<Proc>)
    requires SortedBy(ByArrivalThenId, sorted)
    requires Distinct(sorted)
    requires forall p :: p in sorted ==> p.runtime > 0
    modifies sorted
    ensures multiset(finished) == multiset(sorted)
    ensures forall k :: 0 <= k < |finished| ==> Scheduled(finished[k])
    ensures NonOverlapping(finished)
    ensures HighestRatioFirst(finished)
    ensures IdlesOnlyWhenNothingReady(finished)
  {
    WellFormed(sorted);
    var n := |sorted|;
    var nextIdx := 0;
    var time := 0;
    var ready: seq<Proc> := [];
    ghost var starts: seq<int> := [];
    finished := [];

    // Start the clock at the first arrival.
    if n > 0 {
      time := if time < sorted[0].arrival then time else sorted[0].arrival;
      if time < sorted[0].arrival {
        time := sorted[0].arrival;
      }
    }
    InitialInvariant(sorted, time);

    while |finished| < n
      invariant LoopInvariant(sorted, nextIdx, time, ready, finished, starts)
      invariant Recorded(finished, starts)
      decreases n - |finished|, n - nextIdx, if nextIdx < n && time < sorted[nextIdx].arrival then 1 else 0
    {
      nextIdx, time, ready, finished, starts := Step(sorted, nextIdx, time, ready, finished, starts);
    }
    Finish(sorted, nextIdx, time, ready, finished, starts);
  }

  // ---------------------------------------------------------------------------
  // The simulation
  // ---------------------------------------------------------------------------

  /** Jobs with the same members satisfy the same order-free schedule facts. */
  lemma SameJobsSameSchedule(s: seq<Proc>, t: seq<Proc>)
    requires multiset(s) == multiset(t)
    requires Disjoint(s) && RatioRespected(s) && IdleOnlyWhenNothingArrived(s)
    requires forall k :: 0 <= k < |s| ==> Scheduled(s[k])
    ensures Disjoint(t) && RatioRespected(t) && IdleOnlyWhenNothingArrived(t)
    ensures forall p :: p in t ==> Scheduled(p)
  {
    assert forall p :: p in t <==> p in multiset(s);
    forall p | p in t
      ensures Scheduled(p)
    {
      var k :| 0 <= k < |s| && s[k] == p;
    }
    forall p, q | p in t && q in t && NoneFinishesAt(t, p.start) && p.start <= q.start
      ensures p.start <= q.arrival
    {
      assert NoneFinishesAt(s, p.start);
    }
  }

  /** Non-preemptive HRRN over `procs`: sorts them by arrival then id, runs
      the dispatch loop, and returns the jobs sorted by id with their start
      and finish written. */
  method SimulateHRRN(procs: seq<Proc>) returns (result: seq<Proc>)
    requires Distinct(procs)
    requires forall p :: p in procs ==> p.runtime > 0
    modifies set p | p in procs
    ensures multiset(result) == multiset(procs)
    ensures SortedBy(ById, result)
    ensures forall p :: p in result ==> Scheduled(p)
    ensures Disjoint(result)
    ensures RatioRespected(result)
    ensures IdleOnlyWhenNothingArrived(result)
  {
    var sorted := SortBy(ByArrivalThenId, procs);
    DistinctIffSingleCounts(procs);
    DistinctIffSingleCounts(sorted);
    forall p | p in sorted
      ensures p in procs
    {
      assert p in multiset(sorted);
    }
    var finished := Dispatch(sorted);
    forall p | p in finished
      ensures p.runtime > 0
    {
      assert p in multiset(finished);
    }
    OrderFree(finished);
    result := SortBy(ById, finished);
    SameJobsSameSchedule(finished, result);
  }
}
