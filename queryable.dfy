/**
 * The issue store and the two LINQ operators the core applies to it: `Where` keeps, in
 * order, the issues whose current state satisfies a predicate, and `WhereIf` applies
 * `Where` only when its condition holds. The store is the sequence of issue entities.
 */
module Queryable {
  import opened Issues

  /** A filter over issues, as an expression evaluated on an issue's current state. */
  type Expression = IssueState -> bool

  /** Queryable.Where: the issues of `store` satisfying `p`, in store order. */
  function Where(store: seq<Issue>, p: Expression): (r: seq<Issue>)
    reads store
    ensures |r| <= |store|
    ensures forall k :: 0 <= k < |r| ==> r[k] in store && p(r[k].State())
    ensures forall k :: 0 <= k < |store| && p(store[k].State()) ==> store[k] in r
    decreases |store|
  {
    if |store| == 0 then []
    else
      var rest := Where(store[1..], p);
      if p(store[0].State()) then [store[0]] + rest else rest
  }

  /** Queryable.WhereIf: `Where(store, p)` when `condition` holds, otherwise the whole store. */
  function WhereIf(store: seq<Issue>, condition: bool, p: Expression): (r: seq<Issue>)
    reads store
    ensures !condition ==> r == store
    ensures condition ==> r == Where(store, p)
  {
    if condition then Where(store, p) else store
  }

  /** The positions of `store` whose issue satisfies `p`: an independent count of matches. */
  ghost function MatchingPositions(store: seq<Issue>, p: Expression): set<nat>
    reads store
  {
    set k: nat | k < |store| && p(store[k].State())
  }

  /** Filtering keeps exactly one issue per matching position of the store. */
  lemma {:induction false} WhereCountsMatchingPositions(store: seq<Issue>, p: Expression)
    ensures |Where(store, p)| == |MatchingPositions(store, p)|
    decreases |store|
  {
    if |store| == 0 {
      assert MatchingPositions(store, p) == {};
    } else {
      var tail := MatchingPositions(store[1..], p);
      WhereCountsMatchingPositions(store[1..], p);
      ShiftedCardinality(tail);
      var head: set<nat> := if p(store[0].State()) then {0} else {};
      MatchingPositionsSplit(store, p);
      assert head !! Shifted(tail);
      assert |head + Shifted(tail)| == |head| + |tail|;
    }
  }

  /** The matching positions of a non-empty store: maybe 0, then those of its tail, shifted. */
  lemma MatchingPositionsSplit(store: seq<Issue>, p: Expression)
    requires |store| > 0
    ensures MatchingPositions(store, p)
         == (if p(store[0].State()) then {0} else {}) + Shifted(MatchingPositions(store[1..], p))
  {
    var tail := MatchingPositions(store[1..], p);
    var head: set<nat> := if p(store[0].State()) then {0} else {};
    forall k: nat | k in MatchingPositions(store, p)
      ensures k in head + Shifted(tail)
    {
      if k > 0 {
        assert store[1..][k - 1] == store[k];
        assert k - 1 in tail;
        assert k == (k - 1) + 1;
      }
    }
    forall k: nat | k in Shifted(tail)
      ensures k in MatchingPositions(store, p)
    {
      var j :| j in tail && k == j + 1;
      assert store[1..][j] == store[k];
    }
  }

  /** Every element of `s` plus one. */
  ghost function Shifted(s: set<nat>): set<nat> {
    set k | k in s :: k + 1
  }

  /** Adding one to every element of a set of naturals keeps its size. */
  lemma {:induction false} ShiftedCardinality(s: set<nat>)
    ensures |Shifted(s)| == |s|
    decreases |s|
  {
    if s != {} {
      var x :| x in s;
      ShiftedCardinality(s - {x});
      assert Shifted(s) == Shifted(s - {x}) + {x + 1} by {
        forall k | k in Shifted(s)
          ensures k in Shifted(s - {x}) + {x + 1}
        {
          var j :| j in s && k == j + 1;
          if j != x {
            assert j in s - {x};
          }
        }
        assert x + 1 in Shifted(s);
      }
      assert x + 1 !in Shifted(s - {x});
    }
  }

  /** Appending an issue to the store appends it to the result exactly when it matches. */
  lemma {:induction false} WhereAppend(store: seq<Issue>, i: Issue, p: Expression)
    ensures Where(store + [i], p) == Where(store, p) + (if p(i.State()) then [i] else [])
    decreases |store|
  {
    if |store| == 0 {
      assert store + [i] == [i];
    } else {
      assert (store + [i])[1..] == store[1..] + [i];
      WhereAppend(store[1..], i, p);
    }
  }

  /** Two predicates that agree on every state select the same issues. */
  lemma {:induction false} WhereCongruent(store: seq<Issue>, p: Expression, q: Expression)
    requires forall s :: p(s) == q(s)
    ensures Where(store, p) == Where(store, q)
    decreases |store|
  {
    if |store| > 0 {
      WhereCongruent(store[1..], p, q);
    }
  }

  /** Filtering by `p` and then by a stronger `q` is filtering by `q` alone. */
  lemma {:induction false} WhereNarrowing(store: seq<Issue>, p: Expression, q: Expression)
    requires forall s :: q(s) ==> p(s)
    ensures Where(Where(store, p), q) == Where(store, q)
    decreases |store|
  {
    if |store| > 0 {
      WhereNarrowing(store[1..], p, q);
      var rest := Where(store[1..], p);
      if p(store[0].State()) {
        assert ([store[0]] + rest)[1..] == rest;
      }
    }
  }

  /** Filtering by a conjunction is filtering by each conjunct in turn. */
  lemma {:induction false} WhereConjunction(store: seq<Issue>, p: Expression, q: Expression)
    ensures Where(store, (s: IssueState) => p(s) && q(s)) == Where(Where(store, p), q)
    decreases |store|
  {
    if |store| > 0 {
      WhereConjunction(store[1..], p, q);
      var rest := Where(store[1..], p);
      if p(store[0].State()) {
        assert ([store[0]] + rest)[1..] == rest;
      }
    }
  }
}
