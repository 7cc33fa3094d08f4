/** The HRRN selection policy: the response ratio (waiting + runtime) / runtime,
    compared exactly by cross-multiplication, with ties broken by earlier
    arrival and then smaller id. */
module Selection {
  import opened Procs

  /** Time `p` has waited at `time`, clamped at zero as HRRNSimulator does. */
  function Waiting(p: Proc, time: int): (w: nat)
    ensures w == 0 <==> time <= p.arrival
    ensures p.arrival <= time ==> p.arrival + w == time
  {
    if time - p.arrival > 0 then time - p.arrival else 0
  }

  /** The response ratio (waiting + runtime) / runtime of `p` at `time`, as an
      exact quotient; HRRNSimulator computes it in floating point. It is at
      least 1, and exactly 1 when the job has not waited, so the first ready job
      always beats the scan's initial best ratio of -1. */
  function ResponseRatio(p: Proc, time: int): (r: real)
    requires p.runtime > 0
    ensures r >= 1.0
    ensures r == 1.0 <==> time <= p.arrival
  {
    var n, d := Waiting(p, time) + p.runtime, p.runtime;
    QuotientOrder(n, d, 1, 1);
    n as real / d as real
  }

  /** Quotients with positive denominators compare as their cross products. */
  lemma QuotientOrder(a: int, b: int, c: int, d: int)
    requires b > 0 && d > 0
    ensures a as real / b as real > c as real / d as real <==> a * d > c * b
    ensures a as real / b as real == c as real / d as real <==> a * d == c * b
  {
    var x, y := a as real / b as real, c as real / d as real;
    var k := b as real * d as real;
    assert x * b as real == a as real && y * d as real == c as real;
    assert (x - y) * k == (a * d - c * b) as real;
    assert k > 0.0;
    if x > y {
      assert (x - y) * k > 0.0;
    } else if x < y {
      assert (y - x) * k > 0.0;
    }
  }

  /** Numerator of the response ratio of `p` at `time`; its denominator is
      `p.runtime`. */
  function RatioNumerator(p: Proc, time: int): (n: int)
    ensures n >= p.runtime
    ensures p.runtime > 0 ==> n as real == ResponseRatio(p, time) * p.runtime as real
  {
    Waiting(p, time) + p.runtime
  }

  /** `p`'s response ratio exceeds `q`'s, stated without division. */
  predicate HigherRatio(p: Proc, q: Proc, time: int): (b: bool)
    ensures p.runtime > 0 && q.runtime > 0 ==> (b <==> ResponseRatio(p, time) > ResponseRatio(q, time))
  {
    var cross := RatioNumerator(p, time) * q.runtime > RatioNumerator(q, time) * p.runtime;
    assert p.runtime > 0 && q.runtime > 0 ==> (cross <==> ResponseRatio(p, time) > ResponseRatio(q, time)) by {
      if p.runtime > 0 && q.runtime > 0 {
        QuotientOrder(RatioNumerator(p, time), p.runtime, RatioNumerator(q, time), q.runtime);
      }
    }
    cross
  }

  /** `p` and `q` have the same response ratio, stated without division. */
  predicate SameRatio(p: Proc, q: Proc, time: int): (b: bool)
    ensures p.runtime > 0 && q.runtime > 0 ==> (b <==> ResponseRatio(p, time) == ResponseRatio(q, time))
  {
    var cross := RatioNumerator(p, time) * q.runtime == RatioNumerator(q, time) * p.runtime;
    assert p.runtime > 0 && q.runtime > 0 ==> (cross <==> ResponseRatio(p, time) == ResponseRatio(q, time)) by {
      if p.runtime > 0 && q.runtime > 0 {
        QuotientOrder(RatioNumerator(p, time), p.runtime, RatioNumerator(q, time), q.runtime);
      }
    }
    cross
  }

  /** `p` is to be dispatched before `q` at `time`: the scan replaces its best
      job `q` by `p` when `p`'s ratio is higher, or equal with an earlier
      arrival, or equal with the same arrival and a smaller id. */
  predicate Precedes(p: Proc, q: Proc, time: int): (b: bool)
    ensures p.runtime > 0 && q.runtime > 0 ==>
              (b <==> || ResponseRatio(p, time) > ResponseRatio(q, time)
                      || (ResponseRatio(p, time) == ResponseRatio(q, time) &&
                          (p.arrival < q.arrival || (p.arrival == q.arrival && p.id < q.id))))
  {
    || HigherRatio(p, q, time)
    || (SameRatio(p, q, time) && (p.arrival < q.arrival || (p.arrival == q.arrival && p.id < q.id)))
  }

  /** Comparison of fractions n1/d1 >= n2/d2 >= n3/d3 by cross-multiplication
      chains, and is strict when either step is. */
  lemma {:induction false} CrossChain(n1: int, d1: int, n2: int, d2: int, n3: int, d3: int)
    requires d1 > 0 && d2 > 0 && d3 > 0
    requires n1 * d2 >= n2 * d1 && n2 * d3 >= n3 * d2
    ensures n1 * d3 >= n3 * d1
    ensures (n1 * d2 > n2 * d1 || n2 * d3 > n3 * d2) ==> n1 * d3 > n3 * d1
  {
    var a := n1 * d2 * d3;
    var b := n2 * d1 * d3;
    var c := n3 * d2 * d1;
    MulRight(n1 * d2, n2 * d1, d3);
    MulRight(n2 * d3, n3 * d2, d1);
    assert a >= b >= c;
    assert (n1 * d3 - n3 * d1) * d2 == a - c;
    if n1 * d3 < n3 * d1 {
      MulRight(n3 * d1, n1 * d3 + 1, d2);
    }
    if n1 * d2 > n2 * d1 || n2 * d3 > n3 * d2 {
      MulRightStrict(n1 * d2, n2 * d1, d3);
      MulRightStrict(n2 * d3, n3 * d2, d1);
      assert a > c;
      if n1 * d3 <= n3 * d1 {
        MulRight(n3 * d1, n1 * d3, d2);
      }
    }
  }

  lemma MulRight(x: int, y: int, k: int)
    requires x >= y && k > 0
    ensures x * k >= y * k
  {
  }

  lemma MulRightStrict(x: int, y: int, k: int)
    requires k > 0
    ensures x > y ==> x * k > y * k
    ensures x >= y ==> x * k >= y * k
  {
  }

  /** Precedes is transitive. */
  lemma PrecedesTransitive(p: Proc, q: Proc, r: Proc, time: int)
    requires p.runtime > 0 && q.runtime > 0 && r.runtime > 0
    requires Precedes(p, q, time) && Precedes(q, r, time)
    ensures Precedes(p, r, time)
  {
    CrossChain(RatioNumerator(p, time), p.runtime, RatioNumerator(q, time), q.runtime,
               RatioNumerator(r, time), r.runtime);
  }

  /** Precedes is a strict weak order: whatever precedes `q` also precedes
      every job that `q` is not preceded by. */
  lemma PrecedesThroughNotPreceded(p: Proc, q: Proc, r: Proc, time: int)
    requires p.runtime > 0 && q.runtime > 0 && r.runtime > 0
    requires Precedes(p, q, time) && !Precedes(r, q, time)
    ensures Precedes(p, r, time)
  {
    CrossChain(RatioNumerator(p, time), p.runtime, RatioNumerator(q, time), q.runtime,
               RatioNumerator(r, time), r.runtime);
  }

  /** Equal ratios at time 0 (nobody has waited) and equal arrivals: the
      smaller id goes first. */
  lemma SmallerIdBreaksTie(x: Proc, y: Proc)
    requires x.arrival == 0 && y.arrival == 0 && x.runtime == 5 && y.runtime == 5
    requires x.id == 1 && y.id == 2
    ensures SameRatio(x, y, 0)
    ensures Precedes(x, y, 0) && !Precedes(y, x, 0)
  {
  }

  /** At time 10 a job that arrived at 0 with runtime 20 and a job that
      arrived at 9 with runtime 2 both have ratio 3/2; the earlier arrival
      goes first. */
  lemma EarlierArrivalBreaksTie(x: Proc, y: Proc)
    requires x.arrival == 0 && x.runtime == 20 && y.arrival == 9 && y.runtime == 2
    ensures SameRatio(x, y, 10)
    ensures Precedes(x, y, 10) && !Precedes(y, x, 10)
  {
  }

  /** `ready[b]` is the job the scan dispatches: no ready job precedes it, and
      it precedes every ready job listed before it (so among jobs that agree on
      ratio, arrival and id, the first listed wins). */
  ghost predicate IsSelected(ready: seq<Proc>, time: int, b: int) {
    && 0 <= b < |ready|
    && (forall j :: 0 <= j < |ready| ==> !Precedes(ready[j], ready[b], time))
    && (forall j :: 0 <= j < b ==> Precedes(ready[b], ready[j], time))
  }

  /** The selection is deterministic: no other index is selected. */
  lemma SelectionIsUnique(ready: seq<Proc>, time: int, b: int)
    requires IsSelected(ready, time, b)
    ensures forall c :: IsSelected(ready, time, c) ==> c == b
  {
    forall c | 0 <= c < |ready| && c != b
      ensures !IsSelected(ready, time, c)
    {
      if c < b {
        assert Precedes(ready[b], ready[c], time);
      } else {
        assert !Precedes(ready[c], ready[b], time);
      }
    }
  }

  /** Linear scan for the ready job with the highest response ratio. */
  method SelectBest(ready: seq<Proc>, time: int) returns (b: nat)
    requires |ready| > 0
    requires forall p :: p in ready ==> p.runtime > 0
    ensures IsSelected(ready, time, b)
  {
    // HRRNSimulator starts from "no best, ratio -1"; the first ready job always
    // beats that (ResponseRatio is at least 1), so the scan starts with it chosen.
    b := 0;
    for i := 1 to |ready|
      invariant b < i
      invariant forall j :: 0 <= j < i ==> !Precedes(ready[j], ready[b], time)
      invariant forall j :: 0 <= j < b ==> Precedes(ready[b], ready[j], time)
    {
      if Precedes(ready[i], ready[b], time) {
        forall j | 0 <= j < i
          ensures Precedes(ready[i], ready[j], time)
        {
          if j < b {
            PrecedesTransitive(ready[i], ready[b], ready[j], time);
          } else if j > b {
            PrecedesThroughNotPreceded(ready[i], ready[b], ready[j], time);
          }
        }
        b := i;
      }
    }
  }
}
