/** Dense square tables indexed by node pairs: distance matrices and successor tables,
    both as values (`seq<seq<T>>`) and as the in-place buffers (`array2<T>`) the
    algorithms update. */
module Matrix {
  import opened Distance

  type Mat = seq<seq<Dist>>

  predicate Square<T>(M: seq<seq<T>>, n: nat)
  {
    |M| == n && forall i :: 0 <= i < n ==> |M[i]| == n
  }

  /** The table with one cell replaced. */
  function Set<T>(M: seq<seq<T>>, i: nat, j: nat, x: T): (R: seq<seq<T>>)
    requires i < |M| && j < |M[i]|
    ensures |R| == |M| && forall a :: 0 <= a < |M| ==> |R[a]| == |M[a]|
  {
    M[i := M[i][j := x]]
  }

  /** The value held by a two-dimensional buffer. */
  function Contents<T>(a: array2<T>): (M: seq<seq<T>>)
    reads a
    ensures |M| == a.Length0
    ensures forall i :: 0 <= i < a.Length0 ==> |M[i]| == a.Length1
    ensures forall i, j :: 0 <= i < a.Length0 && 0 <= j < a.Length1 ==> M[i][j] == a[i, j]
  {
    seq(a.Length0, i requires 0 <= i < a.Length0 reads a =>
      seq(a.Length1, j requires 0 <= j < a.Length1 reads a => a[i, j]))
  }

  /** Two square tables that agree on every cell are equal. */
  lemma SquareExt<T>(A: seq<seq<T>>, B: seq<seq<T>>, n: nat)
    requires Square(A, n) && Square(B, n)
    requires forall i, j :: 0 <= i < n && 0 <= j < n ==> A[i][j] == B[i][j]
    ensures A == B
  {
    forall i | 0 <= i < n
      ensures A[i] == B[i]
    {
      assert forall j :: 0 <= j < n ==> A[i][j] == B[i][j];
    }
  }

  /** The matrix of a graph without edges: 0 on the diagonal, no path elsewhere. */
  function Initial(n: nat): (M: Mat)
  {
    seq(n, i => seq(n, j => if i == j then Fin(0) else Inf))
  }

  predicate AllNonNeg(M: Mat)
  {
    forall i, j :: 0 <= i < |M| && 0 <= j < |M[i]| ==> NonNeg(M[i][j])
  }

  predicate ZeroDiagonal(M: Mat, n: nat)
    requires Square(M, n)
  {
    forall i :: 0 <= i < n ==> M[i][i] == Fin(0)
  }
}
