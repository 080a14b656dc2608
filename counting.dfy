/** Counting facts about sequences of node indices: a walk over n nodes that never
    repeats has at most n nodes. */
module Counting {
  ghost predicate Distinct(p: seq<nat>)
  {
    forall a, b :: 0 <= a < b < |p| ==> p[a] != p[b]
  }
  /** The node indices 0, 1, ..., n - 1. */
  function Range(n: nat): (r: seq<nat>)
    ensures |r| == n && forall x :: 0 <= x < n ==> r[x] == x
  {
    seq(n, i => i)
  }
  function Elems(p: seq<nat>): set<nat>
  {
    set x | x in p
  }
  lemma {:induction false} DistinctCard(p: seq<nat>)
    requires Distinct(p)
    ensures |Elems(p)| == |p|
  {
    if p != [] {
      var q := p[..|p| - 1];
      var last := p[|p| - 1];
      assert p == q + [last];
      assert Distinct(q);
      DistinctCard(q);
      var A := Elems(q);
      assert Elems(p) == A + {last};
      assert last !in q;
      assert |A + {last}| == |A| + 1;
    }
  }
  lemma SubsetCard(A: set<nat>, B: set<nat>)
    requires A <= B
    ensures |A| <= |B|
    decreases B
  {
    if A != {} {
      var x :| x in A;
      SubsetCard(A - {x}, B - {x});
    }
  }
  /** n distinct values below n take every value below n. */
  lemma Covers(p: seq<nat>, n: nat, x: nat)
    requires Distinct(p) && |p| == n && forall t :: 0 <= t < |p| ==> p[t] < n
    requires x < n
    ensures x in p
  {
    var S := Elems(p);
    var R := Elems(Range(n));
    DistinctCard(p);
    assert Distinct(Range(n));
    DistinctCard(Range(n));
    if x !in p {
      assert Range(n)[x] == x;
      forall y | y in S ensures y in R - {x} {
        assert Range(n)[y] == y;
      }
      SubsetCard(S, R - {x});
    }
  }
  /** Distinct values below n number at most n. */
  lemma DistinctBound(p: seq<nat>, n: nat)
    requires Distinct(p) && forall t :: 0 <= t < |p| ==> p[t] < n
    ensures |p| <= n
  {
    DistinctCard(p);
    assert Distinct(Range(n));
    DistinctCard(Range(n));
    forall y | y in Elems(p)
      ensures y in Elems(Range(n))
    {
      assert Range(n)[y] == y;
    }
    SubsetCard(Elems(p), Elems(Range(n)));
  }
  /** n nodes below n that all avoid one node j cannot be pairwise distinct. */
  lemma Repeats(p: seq<nat>, n: nat, j: nat)
    requires |p| == n && j < n
    requires forall t :: 0 <= t < |p| ==> p[t] < n && p[t] != j
    ensures exists a, b :: 0 <= a < b < |p| && p[a] == p[b]
  {
    if Distinct(p) {
      Covers(p, n, j);
      assert false;
    }
  }
}
