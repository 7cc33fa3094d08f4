/** A stable insertion sort over job objects, used for both sorts the
    simulator performs (pending order, then report order). Only constant
    fields are compared, so sorting reads no mutable state. */
module Sorting {
  import opened Procs

  ghost predicate SortedBy(o: Order, s: seq<Proc>) {
    forall i, j :: 0 <= i < j < |s| ==> Le(o, s[i], s[j])
  }

  /** Puts `x` in front of the first element it may precede, so that among
      equal keys it stays ahead of the elements that followed it in the input. */
  function Insert(o: Order, x: Proc, s: seq<Proc>): (r: seq<Proc>)
    requires SortedBy(o, s)
    ensures multiset(r) == multiset(s) + multiset{x}
    ensures SortedBy(o, r)
  {
    if s == [] || Le(o, x, s[0]) then
      [x] + s
    else
      var rest := Insert(o, x, s[1..]);
      assert s == [s[0]] + s[1..];
      HeadBoundsInsertion(o, x, s, rest);
      [s[0]] + rest
  }

  /** The head of a sorted `s` that `x` does not go before may precede every
      element of `s[1..]` with `x` inserted. */
  lemma HeadBoundsInsertion(o: Order, x: Proc, s: seq<Proc>, rest: seq<Proc>)
    requires SortedBy(o, s) && s != [] && !Le(o, x, s[0])
    requires multiset(rest) == multiset(s[1..]) + multiset{x}
    ensures forall k :: 0 <= k < |rest| ==> Le(o, s[0], rest[k])
  {
    forall k | 0 <= k < |rest|
      ensures Le(o, s[0], rest[k])
    {
      assert rest[k] in multiset(rest);
      if rest[k] != x {
        assert rest[k] in s[1..];
        var m :| 0 <= m < |s[1..]| && s[1..][m] == rest[k];
        assert s[m + 1] == rest[k];
      }
    }
  }

  /** Stable sort of `s` by `o`: the result is ordered and a permutation. */
  function SortBy(o: Order, s: seq<Proc>): (r: seq<Proc>)
    ensures multiset(r) == multiset(s)
    ensures SortedBy(o, r)
  {
    if s == [] then []
    else
      assert s == [s[0]] + s[1..];
      Insert(o, s[0], SortBy(o, s[1..]))
  }

  /** No two different jobs of `s` share a key under `o`. */
  ghost predicate UniqueKeys(o: Order, s: seq<Proc>) {
    forall p, q :: p in s && q in s && Le(o, p, q) && Le(o, q, p) ==> p == q
  }

  lemma TailSorted(o: Order, s: seq<Proc>)
    requires s != [] && SortedBy(o, s)
    ensures SortedBy(o, s[1..])
  {
    forall i, j | 0 <= i < j < |s[1..]|
      ensures Le(o, s[1..][i], s[1..][j])
    {
      assert s[1..][i] == s[i + 1] && s[1..][j] == s[j + 1];
    }
  }

  lemma TailUnique(o: Order, s: seq<Proc>)
    requires s != [] && UniqueKeys(o, s)
    ensures UniqueKeys(o, s[1..])
  {
    forall p, q | p in s[1..] && q in s[1..] && Le(o, p, q) && Le(o, q, p)
      ensures p == q
    {
      assert p in s && q in s;
    }
  }

  lemma TailMultiset(s: seq<Proc>, t: seq<Proc>)
    requires s != [] && t != [] && s[0] == t[0] && multiset(s) == multiset(t)
    ensures multiset(s[1..]) == multiset(t[1..])
  {
    assert s == [s[0]] + s[1..] && t == [t[0]] + t[1..];
    assert multiset(s[1..]) == multiset(s) - multiset{s[0]};
    assert multiset(t[1..]) == multiset(t) - multiset{t[0]};
  }

  /** Sorted listings of the same jobs with unique keys start with the same job. */
  lemma SortedHeadsAgree(o: Order, s: seq<Proc>, t: seq<Proc>)
    requires s != [] && t != [] && multiset(s) == multiset(t)
    requires SortedBy(o, s) && SortedBy(o, t) && UniqueKeys(o, s)
    ensures s[0] == t[0]
  {
    assert s[0] in multiset(t) && t[0] in multiset(s);
    var k :| 0 <= k < |t| && t[k] == s[0];
    var m :| 0 <= m < |s| && s[m] == t[0];
    assert Le(o, t[0], s[0]) && Le(o, s[0], t[0]);
  }

  /** When no two different jobs share a key, there is only one way to sort
      them: the sorted order depends on the jobs alone, not on the order they
      were given in. */
  lemma {:induction false} SortedIsUnique(o: Order, s: seq<Proc>, t: seq<Proc>)
    requires multiset(s) == multiset(t)
    requires SortedBy(o, s) && SortedBy(o, t)
    requires UniqueKeys(o, s)
    ensures s == t
  {
    assert |s| == |multiset(s)| == |t|;
    if s != [] {
      SortedHeadsAgree(o, s, t);
      TailMultiset(s, t);
      TailSorted(o, s);
      TailSorted(o, t);
      TailUnique(o, s);
      SortedIsUnique(o, s[1..], t[1..]);
      assert s == [s[0]] + s[1..] && t == [t[0]] + t[1..];
    }
  }

  /** The sort gives the same result for any two listings of the same jobs
      when their keys are unique. */
  lemma SortByDependsOnlyOnJobs(o: Order, s: seq<Proc>, t: seq<Proc>)
    requires multiset(s) == multiset(t)
    requires UniqueKeys(o, s)
    ensures SortBy(o, s) == SortBy(o, t)
  {
    var r := SortBy(o, s);
    forall p, q | p in r && q in r && Le(o, p, q) && Le(o, q, p)
      ensures p == q
    {
      assert p in multiset(s) && q in multiset(s);
    }
    SortedIsUnique(o, r, SortBy(o, t));
  }

  /** With a shared key, the sort keeps the jobs in the order given: two
      different jobs with the same arrival and id come out in either order,
      depending on the input listing. */
  lemma SharedKeyKeepsInputOrder(x: Proc, y: Proc)
    requires x != y && x.arrival == y.arrival && x.id == y.id
    ensures SortBy(ByArrivalThenId, [x, y]) == [x, y]
    ensures SortBy(ByArrivalThenId, [y, x]) == [y, x]
  {
    assert [x, y][1..] == [y] && [y, x][1..] == [x];
    assert SortBy(ByArrivalThenId, [y]) == [y] by {
      assert [y][1..] == [];
    }
    assert SortBy(ByArrivalThenId, [x]) == [x] by {
      assert [x][1..] == [];
    }
  }
}
