/** The built-in job set the simulator runs when no input file is given. */
module Generator {
  import opened Procs
  import opened Sorting

  /** What the generator produces: the jobs, or the error the list
      allocation raises for a negative capacity. */
  datatype Generated = Jobs(list: seq<Proc>) | IllegalCapacity(count: int)

  /** Arrival of job `id`: the first ten arrive at 0, then one every 5 ticks
      (id 10 at 5, id 19 at 50). */
  function DefaultArrival(id: nat): (a: nat)
    ensures a % 5 == 0
    ensures a == 0 <==> id < 10
  {
    if id < 10 then 0 else 5 * (id - 9)
  }

  /** Runtime of job `id`: 5, 10, ..., 50, repeating every ten ids. */
  function DefaultRuntime(id: nat): (r: int)
    ensures 5 <= r <= 50 && r % 5 == 0
  {
    ((id % 10) + 1) * 5
  }

  /** Absolute deadline of job `id`: its arrival plus 10, 20, ..., 100,
      repeating every ten ids. */
  function DefaultDeadline(id: nat): (d: int)
    ensures d - DefaultArrival(id) == 2 * DefaultRuntime(id)
  {
    DefaultArrival(id) + ((id % 10) + 1) * 10
  }

  /** `s` is the default job set of size |s|, none of it scheduled yet. */
  ghost predicate DefaultJobs(s: seq<Proc>)
    reads s
  {
    forall k :: 0 <= k < |s| ==>
      && s[k].id == k
      && s[k].arrival == DefaultArrival(k)
      && s[k].runtime == DefaultRuntime(k)
      && s[k].deadline == DefaultDeadline(k)
      && s[k].start == -1 && s[k].finish == -1
  }

  /** Builds jobs 0 .. count-1 in id order. A negative count is refused, as
      the list allocation with that capacity refuses it. */
  method GenerateDefault(count: int) returns (r: Generated)
    ensures r.IllegalCapacity? <==> count < 0
    ensures r.IllegalCapacity? ==> r.count == count
    ensures r.Jobs? ==> |r.list| == count && DefaultJobs(r.list)
  {
    if count < 0 {
      return IllegalCapacity(count);
    }
    var list: seq<Proc> := [];
    var id := 0;
    while id < count
      invariant 0 <= id <= count
      invariant |list| == id
      invariant DefaultJobs(list)
    {
      var arrival := if id < 10 then 0 else 5 * (id - 9);
      var runtime := ((id % 10) + 1) * 5;
      var relDeadline := ((id % 10) + 1) * 10;
      var deadline := arrival + relDeadline;
      var p := new Proc(id, arrival, runtime, deadline);
      list := list + [p];
      id := id + 1;
    }
    return Jobs(list);
  }

  /** Arrivals never decrease with the id. */
  lemma DefaultArrivalMonotone(i: nat, j: nat)
    requires i <= j
    ensures DefaultArrival(i) <= DefaultArrival(j)
  {
  }

  /** The default job set is already in pending order, holds each job once
      and has only positive runtimes, so it is a valid simulator input. */
  lemma DefaultJobsAreValidInput(s: seq<Proc>)
    requires DefaultJobs(s)
    ensures SortedBy(ByArrivalThenId, s)
    ensures Distinct(s)
    ensures forall p :: p in s ==> 5 <= p.runtime <= 50 && p.deadline - p.arrival == 2 * p.runtime
  {
    forall i, j | 0 <= i < j < |s|
      ensures Le(ByArrivalThenId, s[i], s[j])
    {
      DefaultArrivalMonotone(i, j);
    }
    forall p | p in s
      ensures 5 <= p.runtime <= 50 && p.deadline - p.arrival == 2 * p.runtime
    {
      var k :| 0 <= k < |s| && s[k] == p;
      assert p.runtime == DefaultRuntime(k) && p.deadline == DefaultDeadline(k);
    }
  }
}
