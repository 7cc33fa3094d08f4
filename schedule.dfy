/** What a finished run looks like. A schedule lists jobs in the order they
    ran, with their start times; job k runs from st[k] to st[k] + s[k].runtime. */
module Schedule {
  import opened Procs
  import opened Selection

  /** One CPU: each job finishes before any job listed after it starts, so
      the intervals [start, finish) are pairwise disjoint and in list order. */
  ghost predicate NonOverlappingAt(s: seq<Proc>, st: seq<int>)
    requires |st| == |s|
  {
    forall k, j :: 0 <= k < j < |s| ==> st[k] + s[k].runtime <= st[j]
  }

  /** The HRRN choice: no job that had already arrived when `s[k]` was
      dispatched, and ran later, outranked `s[k]` at that time. */
  ghost predicate HighestRatioFirstAt(s: seq<Proc>, st: seq<int>)
    requires |st| == |s|
  {
    forall k, j :: 0 <= k < j < |s| && s[j].arrival <= st[k] ==> !Precedes(s[j], s[k], st[k])
  }

  /** The CPU sat idle just before `s[k]` started: it is the first job, or its
      predecessor finished strictly earlier. */
  ghost predicate IdleBeforeAt(s: seq<Proc>, st: seq<int>, k: int)
    requires |st| == |s| && 0 <= k < |s|
  {
    k == 0 || st[k - 1] + s[k - 1].runtime < st[k]
  }

  /** The CPU idles only while nothing is ready: when it was idle before
      `s[k]`, no job dispatched from then on had arrived any earlier, so `s[k]`
      started at the earliest remaining arrival. */
  ghost predicate IdlesOnlyWhenNothingReadyAt(s: seq<Proc>, st: seq<int>)
    requires |st| == |s|
  {
    forall k, j :: 0 <= k <= j < |s| && IdleBeforeAt(s, st, k) ==> st[k] <= s[j].arrival
  }

  /** The start fields of `s`, in order. */
  ghost function Starts(s: seq<Proc>): (st: seq<int>)
    reads s
    ensures |st| == |s|
    ensures forall k :: 0 <= k < |s| ==> st[k] == s[k].start
  {
    seq(|s|, k requires 0 <= k < |s| reads s => s[k].start)
  }

  /** `p` carries a consistent schedule: it started no earlier than it arrived
      and finished exactly its runtime later. */
  ghost predicate Scheduled(p: Proc)
    reads p
  {
    p.arrival <= p.start && p.finish == p.start + p.runtime
  }

  ghost predicate NonOverlapping(s: seq<Proc>)
    reads s
  {
    NonOverlappingAt(s, Starts(s))
  }

  ghost predicate HighestRatioFirst(s: seq<Proc>)
    reads s
  {
    HighestRatioFirstAt(s, Starts(s))
  }

  ghost predicate IdlesOnlyWhenNothingReady(s: seq<Proc>)
    reads s
  {
    IdlesOnlyWhenNothingReadyAt(s, Starts(s))
  }

  // ---------------------------------------------------------------------------
  // The same properties, stated on the jobs alone, whatever order they are
  // listed in (the simulator reports them by id, not in the order they ran).
  // ---------------------------------------------------------------------------

  /** No two jobs of `s` ran at the same time. */
  ghost predicate Disjoint(s: seq<Proc>)
    reads s
  {
    forall p, q :: p in s && q in s && p != q ==> p.finish <= q.start || q.finish <= p.start
  }

  /** Whenever `p` was dispatched, no job that had arrived and was dispatched
      later outranked it. */
  ghost predicate RatioRespected(s: seq<Proc>)
    reads s
  {
    forall p, q :: p in s && q in s && q.arrival <= p.start < q.start ==> !Precedes(q, p, p.start)
  }

  /** No job of `s` finishes at time `t`. */
  ghost predicate NoneFinishesAt(s: seq<Proc>, t: int)
    reads s
  {
    forall r :: r in s ==> r.finish != t
  }

  /** A job that did not start as another finished started on an idle CPU;
      then no job dispatched from then on had arrived any earlier. */
  ghost predicate IdleOnlyWhenNothingArrived(s: seq<Proc>)
    reads s
  {
    forall p, q :: p in s && q in s && NoneFinishesAt(s, p.start) && p.start <= q.start ==> p.start <= q.arrival
  }

  /** With positive runtimes, a one-CPU schedule starts its jobs in list order. */
  lemma StartsIncrease(s: seq<Proc>, st: seq<int>, k: int, j: int)
    requires |st| == |s| && NonOverlappingAt(s, st)
    requires forall p :: p in s ==> p.runtime > 0
    requires 0 <= k < |s| && 0 <= j < |s|
    ensures k < j <==> st[k] < st[j]
  {
    if k < j {
      assert s[k] in s;
    } else if j < k {
      assert s[j] in s;
    }
  }

  lemma DisjointFromNonOverlapping(s: seq<Proc>)
    requires forall k :: 0 <= k < |s| ==> Scheduled(s[k])
    requires NonOverlapping(s)
    ensures Disjoint(s)
  {
    forall p, q | p in s && q in s && p != q
      ensures p.finish <= q.start || q.finish <= p.start
    {
      var k :| 0 <= k < |s| && s[k] == p;
      var j :| 0 <= j < |s| && s[j] == q;
      assert Scheduled(s[k]) && Scheduled(s[j]);
    }
  }

  lemma RatioRespectedFromHighestRatioFirst(s: seq<Proc>)
    requires forall p :: p in s ==> p.runtime > 0
    requires NonOverlapping(s) && HighestRatioFirst(s)
    ensures RatioRespected(s)
  {
    var st := Starts(s);
    forall p, q | p in s && q in s && q.arrival <= p.start < q.start
      ensures !Precedes(q, p, p.start)
    {
      var k :| 0 <= k < |s| && s[k] == p;
      var j :| 0 <= j < |s| && s[j] == q;
      StartsIncrease(s, st, k, j);
    }
  }

  lemma IdleOnlyWhenNothingArrivedFromReady(s: seq<Proc>)
    requires forall p :: p in s ==> p.runtime > 0
    requires forall k :: 0 <= k < |s| ==> Scheduled(s[k])
    requires NonOverlapping(s) && IdlesOnlyWhenNothingReady(s)
    ensures IdleOnlyWhenNothingArrived(s)
  {
    var st := Starts(s);
    forall p, q | p in s && q in s && NoneFinishesAt(s, p.start) && p.start <= q.start
      ensures p.start <= q.arrival
    {
      var k :| 0 <= k < |s| && s[k] == p;
      var j :| 0 <= j < |s| && s[j] == q;
      StartsIncrease(s, st, j, k);
      if k > 0 {
        assert Scheduled(s[k - 1]) && s[k - 1] in s;
        assert s[k - 1].finish != p.start;
      }
      assert IdleBeforeAt(s, st, k);
    }
  }

  /** A schedule built in dispatch order keeps its properties once the list
      order is forgotten. */
  lemma OrderFree(s: seq<Proc>)
    requires forall p :: p in s ==> p.runtime > 0
    requires forall k :: 0 <= k < |s| ==> Scheduled(s[k])
    requires NonOverlapping(s) && HighestRatioFirst(s) && IdlesOnlyWhenNothingReady(s)
    ensures Disjoint(s) && RatioRespected(s) && IdleOnlyWhenNothingArrived(s)
  {
    DisjointFromNonOverlapping(s);
    RatioRespectedFromHighestRatioFirst(s);
    IdleOnlyWhenNothingArrivedFromReady(s);
  }
}
