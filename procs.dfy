/** The job record of the simulator and the orderings the simulator sorts by. */
module Procs {

  /** One job. Identity, arrival, run length and absolute deadline are fixed at
      construction; start and finish are written once, by the dispatcher, and
      hold -1 until then. */
  class Proc {
    const id: int
    const arrival: int
    const runtime: int
    const deadline: int

    var start: int
    var finish: int

    constructor (id: int, arrival: int, runtime: int, deadline: int)
      ensures this.id == id && this.arrival == arrival
      ensures this.runtime == runtime && this.deadline == deadline
      ensures start == -1 && finish == -1
    {
      this.id := id;
      this.arrival := arrival;
      this.runtime := runtime;
      this.deadline := deadline;
      start := -1;
      finish := -1;
    }
  }

  /** The two orders the simulator sorts jobs by: the pending order (arrival
      ascending, then id ascending) and the report order (id ascending). */
  datatype Order = ByArrivalThenId | ById

  /** `p` may come before `q` under order `o`. */
  predicate Le(o: Order, p: Proc, q: Proc): (b: bool)
    // Jobs whose keys agree may stand either way round.
    ensures p.id == q.id && (o.ById? || p.arrival == q.arrival) ==> b
    // In the pending order, arrival is the primary key.
    ensures o.ByArrivalThenId? ==> (b ==> p.arrival <= q.arrival) && (p.arrival < q.arrival ==> b)
  {
    match o
    case ByArrivalThenId => p.arrival < q.arrival || (p.arrival == q.arrival && p.id <= q.id)
    case ById => p.id <= q.id
  }

  /** No job object occurs twice. */
  ghost predicate Distinct(s: seq<Proc>) {
    forall i, j :: 0 <= i < j < |s| ==> s[i] != s[j]
  }

  /** Distinctness is the same as every object occurring at most once, so it
      survives any permutation of the sequence. */
  lemma {:induction false} DistinctIffSingleCounts(s: seq<Proc>)
    ensures Distinct(s) <==> forall p :: multiset(s)[p] <= 1
  {
    if s != [] {
      DistinctIffSingleCounts(s[1..]);
      assert s == [s[0]] + s[1..];
      assert multiset(s) == multiset{s[0]} + multiset(s[1..]);
      if Distinct(s) {
        assert Distinct(s[1..]) by {
          forall i, j | 0 <= i < j < |s[1..]| ensures s[1..][i] != s[1..][j] {
            assert s[1..][i] == s[i + 1] && s[1..][j] == s[j + 1];
          }
        }
        assert s[0] !in s[1..] by {
          forall k | 0 <= k < |s[1..]| ensures s[1..][k] != s[0] {
            assert s[1..][k] == s[k + 1];
          }
        }
      } else {
        var i, j :| 0 <= i < j < |s| && s[i] == s[j];
        if i == 0 {
          assert s[j] in s[1..] by { assert s[1..][j - 1] == s[j]; }
          assert multiset(s)[s[0]] >= 2;
        } else {
          assert s[1..][i - 1] == s[1..][j - 1];
          assert !Distinct(s[1..]);
          var p :| multiset(s[1..])[p] > 1;
          assert multiset(s)[p] > 1;
        }
      }
    }
  }
}
