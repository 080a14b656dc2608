/** What the Floyd–Warshall loops compute, as values.

    The source updates `dist` and `next` in place, cell by cell in row-major order,
    for each intermediate node `k` in turn. `Cell`, `Row`, `Pass` and `Passes` state
    exactly that order of updates. `Step`/`Steps` is the textbook recurrence, where
    round `k` reads only the matrix of round `k - 1`. With non-negative entries the
    two agree (`PassesAreSteps`), and on the textbook form the result is proved to be
    the length of the shortest walk and the successor table to follow such walks. */
module FloydSpec {
  import opened Distance
  import opened Matrix

  /** next[i][j]: the node after i on the chosen i-to-j path (null in the source). */
  type Succ = seq<seq<Option<nat>>>

  datatype State = State(dist: Mat, next: Succ)

  predicate Shaped(s: State, n: nat)
  {
    Square(s.dist, n) && Square(s.next, n)
  }

  /** The successor table before the loops: j when i != j and dist[i][j] is finite. */
  function InitNext(D: Mat, n: nat): (N: Succ)
    requires Square(D, n)
    ensures Square(N, n)
  {
    seq(n, i requires 0 <= i < n => seq(n, j requires 0 <= j < n =>
      if i != j && D[i][j].Fin? then Some(j) else None))
  }

  function Start(D: Mat, n: nat): (s: State)
    requires Square(D, n)
    ensures Shaped(s, n)
  {
    State(D, InitNext(D, n))
  }

  // ---------------------------------------------------------------------------
  // The in-place order of updates

  /** One step of the innermost loop, on cell (i, j) for intermediate k. */
  function Cell(s: State, n: nat, k: nat, i: nat, j: nat): (r: State)
    requires Shaped(s, n) && k < n && i < n && j < n
    ensures Shaped(r, n)
  {
    var alt := Add(s.dist[i][k], s.dist[k][j]);
    if Less(alt, s.dist[i][j])
    then State(Set(s.dist, i, j, alt), Set(s.next, i, j, s.next[i][k]))
    else s
  }

  /** Cells (i, 0) .. (i, j - 1) processed, in order. */
  function Row(s: State, n: nat, k: nat, i: nat, j: nat): (r: State)
    requires Shaped(s, n) && k < n && i < n && j <= n
    ensures Shaped(r, n)
    decreases j
  {
    if j == 0 then s else Cell(Row(s, n, k, i, j - 1), n, k, i, j - 1)
  }

  /** Rows 0 .. i - 1 processed for intermediate k. */
  function Pass(s: State, n: nat, k: nat, i: nat): (r: State)
    requires Shaped(s, n) && k < n && i <= n
    ensures Shaped(r, n)
    decreases i
  {
    if i == 0 then s else Row(Pass(s, n, k, i - 1), n, k, i - 1, n)
  }

  /** Intermediates 0 .. k - 1 processed. */
  function Passes(s: State, n: nat, k: nat): (r: State)
    requires Shaped(s, n) && k <= n
    ensures Shaped(r, n)
    decreases k
  {
    if k == 0 then s else Pass(Passes(s, n, k - 1), n, k - 1, n)
  }

  /** The whole run on an n-by-n matrix. */
  function Run(D: Mat, n: nat): (r: State)
    requires Square(D, n)
    ensures Shaped(r, n)
  {
    Passes(Start(D, n), n, n)
  }

  // ---------------------------------------------------------------------------
  // Facts that hold for any weights

  /** No update is made through an intermediate that is unreachable from i or
      cannot reach j. */
  lemma NoRelayThroughUnreachable(s: State, n: nat, k: nat, i: nat, j: nat)
    requires Shaped(s, n) && k < n && i < n && j < n
    requires s.dist[i][k].Inf? || s.dist[k][j].Inf?
    ensures Cell(s, n, k, i, j) == s
  {
  }

  /** A step changes cell (i, j) only when the relayed length is strictly shorter;
      it then takes that length and the successor of (i, k), and nothing else
      changes. */
  lemma CellEffect(s: State, n: nat, k: nat, i: nat, j: nat)
    requires Shaped(s, n) && k < n && i < n && j < n
    ensures var r := Cell(s, n, k, i, j);
      var alt := Add(s.dist[i][k], s.dist[k][j]);
      && (Less(alt, s.dist[i][j]) ==> r.dist[i][j] == alt && r.next[i][j] == s.next[i][k])
      && (!Less(alt, s.dist[i][j]) ==> r == s)
      && (forall a, b :: 0 <= a < n && 0 <= b < n && (a, b) != (i, j) ==>
            r.dist[a][b] == s.dist[a][b] && r.next[a][b] == s.next[a][b])
  {
  }

  /** Every cell is non-increasing over a row of steps. */
  lemma RowDecreases(s: State, n: nat, k: nat, i: nat, j: nat)
    requires Shaped(s, n) && k < n && i < n && j <= n
    ensures forall a, b :: 0 <= a < n && 0 <= b < n ==> Le(Row(s, n, k, i, j).dist[a][b], s.dist[a][b])
    decreases j
  {
    if j > 0 {
      RowDecreases(s, n, k, i, j - 1);
      var c := Row(s, n, k, i, j - 1);
      CellEffect(c, n, k, i, j - 1);
      forall a, b | 0 <= a < n && 0 <= b < n
        ensures Le(Row(s, n, k, i, j).dist[a][b], s.dist[a][b])
      {
        LeTrans(Row(s, n, k, i, j).dist[a][b], c.dist[a][b], s.dist[a][b]);
      }
    }
  }

  lemma PassDecreases(s: State, n: nat, k: nat, i: nat)
    requires Shaped(s, n) && k < n && i <= n
    ensures forall a, b :: 0 <= a < n && 0 <= b < n ==> Le(Pass(s, n, k, i).dist[a][b], s.dist[a][b])
    decreases i
  {
    if i > 0 {
      PassDecreases(s, n, k, i - 1);
      var c := Pass(s, n, k, i - 1);
      RowDecreases(c, n, k, i - 1, n);
      forall a, b | 0 <= a < n && 0 <= b < n
        ensures Le(Pass(s, n, k, i).dist[a][b], s.dist[a][b])
      {
        LeTrans(Pass(s, n, k, i).dist[a][b], c.dist[a][b], s.dist[a][b]);
      }
    }
  }

  /** Every entry of `dist` is non-increasing across the run, whatever the weights. */
  lemma {:induction false} PassesDecrease(s: State, n: nat, k: nat)
    requires Shaped(s, n) && k <= n
    ensures forall a, b :: 0 <= a < n && 0 <= b < n ==> Le(Passes(s, n, k).dist[a][b], s.dist[a][b])
    decreases k
  {
    if k > 0 {
      PassesDecrease(s, n, k - 1);
      var c := Passes(s, n, k - 1);
      PassDecreases(c, n, k - 1, n);
      forall a, b | 0 <= a < n && 0 <= b < n
        ensures Le(Passes(s, n, k).dist[a][b], s.dist[a][b])
      {
        LeTrans(Passes(s, n, k).dist[a][b], c.dist[a][b], s.dist[a][b]);
      }
    }
  }

  // ---------------------------------------------------------------------------
  // The textbook recurrence

  function Alt(D: Mat, n: nat, k: nat, i: nat, j: nat): Dist
    requires Square(D, n) && k < n && i < n && j < n
  {
    Add(D[i][k], D[k][j])
  }

  function StepDist(D: Mat, n: nat, k: nat): (R: Mat)
    requires Square(D, n) && k < n
    ensures Square(R, n)
  {
    seq(n, i requires 0 <= i < n => seq(n, j requires 0 <= j < n =>
      if Less(Alt(D, n, k, i, j), D[i][j]) then Alt(D, n, k, i, j) else D[i][j]))
  }

  function StepNext(D: Mat, N: Succ, n: nat, k: nat): (R: Succ)
    requires Square(D, n) && Square(N, n) && k < n
    ensures Square(R, n)
  {
    seq(n, i requires 0 <= i < n => seq(n, j requires 0 <= j < n =>
      if Less(Alt(D, n, k, i, j), D[i][j]) then N[i][k] else N[i][j]))
  }

  function Step(s: State, n: nat, k: nat): (r: State)
    requires Shaped(s, n) && k < n
    ensures Shaped(r, n)
  {
    State(StepDist(s.dist, n, k), StepNext(s.dist, s.next, n, k))
  }

  function Steps(s: State, n: nat, k: nat): (r: State)
    requires Shaped(s, n) && k <= n
    ensures Shaped(r, n)
    decreases k
  {
    if k == 0 then s else Step(Steps(s, n, k - 1), n, k - 1)
  }

  /** The distance part of the recurrence, which does not depend on `next`. */
  function Delta(D: Mat, n: nat, k: nat): (R: Mat)
    requires Square(D, n) && k <= n
    ensures Square(R, n)
    decreases k
  {
    if k == 0 then D else StepDist(Delta(D, n, k - 1), n, k - 1)
  }

  lemma {:induction false} StepsDist(s: State, n: nat, k: nat)
    requires Shaped(s, n) && k <= n
    ensures Steps(s, n, k).dist == Delta(s.dist, n, k)
    decreases k
  {
    if k > 0 {
      StepsDist(s, n, k - 1);
    }
  }

  lemma StepDistNonNeg(D: Mat, n: nat, k: nat)
    requires Square(D, n) && k < n && AllNonNeg(D)
    ensures AllNonNeg(StepDist(D, n, k))
  {
  }

  lemma {:induction false} DeltaNonNeg(D: Mat, n: nat, k: nat)
    requires Square(D, n) && k <= n && AllNonNeg(D)
    ensures AllNonNeg(Delta(D, n, k))
    decreases k
  {
    if k > 0 {
      DeltaNonNeg(D, n, k - 1);
      StepDistNonNeg(Delta(D, n, k - 1), n, k - 1);
    }
  }

  lemma {:induction false} DeltaDecreases(D: Mat, n: nat, k: nat)
    requires Square(D, n) && k <= n
    ensures forall i, j :: 0 <= i < n && 0 <= j < n ==> Le(Delta(D, n, k)[i][j], D[i][j])
    decreases k
  {
    if k > 0 {
      DeltaDecreases(D, n, k - 1);
      var P := Delta(D, n, k - 1);
      forall i, j | 0 <= i < n && 0 <= j < n
        ensures Le(Delta(D, n, k)[i][j], D[i][j])
      {
        LeTrans(Delta(D, n, k)[i][j], P[i][j], D[i][j]);
      }
    }
  }

  /** With a non-negative pivot cell, round k leaves row k and column k alone. */
  lemma StepKeepsPivot(s: State, n: nat, k: nat)
    requires Shaped(s, n) && k < n && NonNeg(s.dist[k][k])
    ensures forall i :: 0 <= i < n ==>
      && Step(s, n, k).dist[i][k] == s.dist[i][k]
      && Step(s, n, k).dist[k][i] == s.dist[k][i]
      && Step(s, n, k).next[i][k] == s.next[i][k]
  {
    forall i | 0 <= i < n
      ensures !Less(Alt(s.dist, n, k, i, k), s.dist[i][k])
      ensures !Less(Alt(s.dist, n, k, k, i), s.dist[k][i])
    {
      AddNonNeg(s.dist[i][k], s.dist[k][k]);
    }
  }

  // ---------------------------------------------------------------------------
  // In-place order equals the textbook recurrence (non-negative pivot)

  predicate Done(a: nat, b: nat, i: nat, j: nat)
  {
    a < i || (a == i && b < j)
  }

  /** c has cells before (i, j) as in t and the others as in s. */
  ghost predicate Partial(c: State, s: State, t: State, n: nat, i: nat, j: nat)
    requires Shaped(c, n) && Shaped(s, n) && Shaped(t, n)
  {
    forall a, b {:trigger c.dist[a][b]} {:trigger c.next[a][b]} :: 0 <= a < n && 0 <= b < n ==>
      && c.dist[a][b] == (if Done(a, b, i, j) then t.dist[a][b] else s.dist[a][b])
      && c.next[a][b] == (if Done(a, b, i, j) then t.next[a][b] else s.next[a][b])
  }

  /** t is round k of the recurrence applied to s, stated cell by cell. */
  ghost predicate IsStep(s: State, t: State, n: nat, k: nat)
    requires Shaped(s, n) && k < n
  {
    && Shaped(t, n)
    && forall a, b {:trigger t.dist[a][b]} {:trigger t.next[a][b]} :: 0 <= a < n && 0 <= b < n ==>
      && t.dist[a][b] == (if Less(Alt(s.dist, n, k, a, b), s.dist[a][b]) then Alt(s.dist, n, k, a, b) else s.dist[a][b])
      && t.next[a][b] == (if Less(Alt(s.dist, n, k, a, b), s.dist[a][b]) then s.next[a][k] else s.next[a][b])
  }

  lemma StepIsStep(s: State, n: nat, k: nat)
    requires Shaped(s, n) && k < n
    ensures IsStep(s, Step(s, n, k), n, k)
  {
  }

  lemma CellMatchesStep(c: State, s: State, t: State, n: nat, k: nat, i: nat, j: nat)
    requires Shaped(c, n) && Shaped(s, n) && k < n && i < n && j < n
    requires NonNeg(s.dist[k][k]) && IsStep(s, t, n, k)
    requires Partial(c, s, t, n, i, j)
    ensures Partial(Cell(c, n, k, i, j), s, t, n, i, j + 1)
  {
    AddNonNeg(s.dist[i][k], s.dist[k][k]);
    assert c.dist[i][k] == s.dist[i][k];
    assert c.dist[k][j] == s.dist[k][j];
    assert c.next[i][k] == s.next[i][k];
    assert c.dist[i][j] == s.dist[i][j] && c.next[i][j] == s.next[i][j];
    CellEffect(c, n, k, i, j);
  }

  lemma {:induction false} RowMatchesStep(c: State, s: State, t: State, n: nat, k: nat, i: nat, j: nat)
    requires Shaped(c, n) && Shaped(s, n) && k < n && i < n && j <= n
    requires NonNeg(s.dist[k][k]) && IsStep(s, t, n, k)
    requires Partial(c, s, t, n, i, 0)
    ensures Partial(Row(c, n, k, i, j), s, t, n, i, j)
    decreases j
  {
    if j > 0 {
      RowMatchesStep(c, s, t, n, k, i, j - 1);
      CellMatchesStep(Row(c, n, k, i, j - 1), s, t, n, k, i, j - 1);
    }
  }

  lemma {:induction false} PassMatchesStep(s: State, t: State, n: nat, k: nat, i: nat)
    requires Shaped(s, n) && k < n && i <= n
    requires NonNeg(s.dist[k][k]) && IsStep(s, t, n, k)
    ensures Partial(Pass(s, n, k, i), s, t, n, i, 0)
    decreases i
  {
    if i > 0 {
      var c := Pass(s, n, k, i - 1);
      assert Pass(s, n, k, i) == Row(c, n, k, i - 1, n);
      PassMatchesStep(s, t, n, k, i - 1);
      RowMatchesStep(c, s, t, n, k, i - 1, n);
      RowDone(Row(c, n, k, i - 1, n), s, t, n, i - 1);
    }
  }

  /** A finished row i is the same as row i + 1 not yet started. */
  lemma RowDone(c: State, s: State, t: State, n: nat, i: nat)
    requires Shaped(c, n) && Shaped(s, n) && Shaped(t, n)
    requires Partial(c, s, t, n, i, n)
    ensures Partial(c, s, t, n, i + 1, 0)
  {
    forall a, b | 0 <= a < n && 0 <= b < n
      ensures Done(a, b, i, n) == Done(a, b, i + 1, 0)
    {
    }
  }

  /** One in-place pass computes one round of the recurrence. */
  lemma PassIsStep(s: State, n: nat, k: nat)
    requires Shaped(s, n) && k < n && NonNeg(s.dist[k][k])
    ensures Pass(s, n, k, n) == Step(s, n, k)
  {
    var p := Pass(s, n, k, n);
    var t := Step(s, n, k);
    StepIsStep(s, n, k);
    PassMatchesStep(s, t, n, k, n);
    SquareExt(p.dist, t.dist, n);
    SquareExt(p.next, t.next, n);
  }

  /** With non-negative entries, the in-place run computes the textbook recurrence. */
  lemma {:induction false} PassesAreSteps(s: State, n: nat, k: nat)
    requires Shaped(s, n) && k <= n && AllNonNeg(s.dist)
    ensures Passes(s, n, k) == Steps(s, n, k)
    decreases k
  {
    if k > 0 {
      PassesAreSteps(s, n, k - 1);
      StepsDiagNonNeg(s, n, k - 1, k - 1);
      PassesStep(s, n, k);
    }
  }

  lemma PassesStep(s: State, n: nat, k: nat)
    requires Shaped(s, n) && 0 < k <= n
    requires Passes(s, n, k - 1) == Steps(s, n, k - 1)
    requires NonNeg(Steps(s, n, k - 1).dist[k - 1][k - 1])
    ensures Passes(s, n, k) == Steps(s, n, k)
  {
    PassIsStep(Steps(s, n, k - 1), n, k - 1);
  }

  lemma StepsDiagNonNeg(s: State, n: nat, k: nat, i: nat)
    requires Shaped(s, n) && k <= n && i < n && AllNonNeg(s.dist)
    ensures NonNeg(Steps(s, n, k).dist[i][i])
  {
    StepsDist(s, n, k);
    DeltaNonNeg(s.dist, n, k);
  }

  /** The distances of the run are those of the recurrence. */
  lemma RunIsDelta(D: Mat, n: nat)
    requires Square(D, n) && AllNonNeg(D)
    ensures Run(D, n).dist == Delta(D, n, n)
  {
    PassesAreSteps(Start(D, n), n, n);
    StepsDist(Start(D, n), n, n);
  }

  // ---------------------------------------------------------------------------
  // Triangle inequality

  lemma TriangleCase(P: Mat, n: nat, k: nat, i: nat, j: nat, m: nat)
    requires Square(P, n) && AllNonNeg(P) && k < n && i < n && j < n && m <= k
    requires m < k ==> Le(P[i][j], Add(P[i][m], P[m][j]))
    requires m < k ==> Le(P[k][j], Add(P[k][m], P[m][j]))
    requires m < k ==> Le(P[i][k], Add(P[i][m], P[m][k]))
    ensures var Q := StepDist(P, n, k); Le(Q[i][j], Add(Q[i][m], Q[m][j]))
  {
    var Q := StepDist(P, n, k);
    var via := Add(P[i][k], P[k][j]);
    assert Le(Q[i][j], via) && Le(Q[i][j], P[i][j]);
    if m == k {
      AddNonNeg(P[i][k], P[k][k]);
      AddNonNeg(P[k][k], P[k][j]);
      assert Q[i][k] == P[i][k] && Q[k][j] == P[k][j];
    } else {
      var viaL := Add(P[i][k], P[k][m]);
      var viaR := Add(P[m][k], P[k][j]);
      assert Q[i][m] == P[i][m] || Q[i][m] == viaL;
      assert Q[m][j] == P[m][j] || Q[m][j] == viaR;
      if Q[i][m] == P[i][m] && Q[m][j] == P[m][j] {
      } else if Q[i][m] == viaL && Q[m][j] == P[m][j] {
        AddAssoc(P[i][k], P[k][m], P[m][j]);
        AddMono(P[i][k], P[k][j], P[i][k], Add(P[k][m], P[m][j]));
      } else if Q[i][m] == P[i][m] && Q[m][j] == viaR {
        AddAssoc(P[i][m], P[m][k], P[k][j]);
        AddMono(P[i][k], P[k][j], Add(P[i][m], P[m][k]), P[k][j]);
      } else {
        AddAssoc(P[i][k], P[k][m], viaR);
        AddNonNeg(P[k][m], P[m][k]);
        AddAssoc(P[k][m], P[m][k], P[k][j]);
        assert NonNeg(Add(P[k][m], P[m][k]));
        AddNonNeg(P[k][j], Add(P[k][m], P[m][k]));
        AddMono(P[i][k], P[k][j], P[i][k], Add(P[k][m], viaR));
      }
    }
  }

  /** After round k, no intermediate below k shortens any entry. */
  lemma {:induction false} DeltaTriangle(D: Mat, n: nat, k: nat)
    requires Square(D, n) && AllNonNeg(D) && k <= n
    ensures forall i, j, m :: 0 <= i < n && 0 <= j < n && 0 <= m < k ==>
      Le(Delta(D, n, k)[i][j], Add(Delta(D, n, k)[i][m], Delta(D, n, k)[m][j]))
    decreases k
  {
    if k > 0 {
      DeltaTriangle(D, n, k - 1);
      DeltaNonNeg(D, n, k - 1);
      var P := Delta(D, n, k - 1);
      forall i, j, m | 0 <= i < n && 0 <= j < n && 0 <= m < k
        ensures Le(Delta(D, n, k)[i][j], Add(Delta(D, n, k)[i][m], Delta(D, n, k)[m][j]))
      {
        TriangleCase(P, n, k - 1, i, j, m);
      }
    }
  }

  /** The result of the run is a fixed point: no entry can be shortened through any
      intermediate node. */
  lemma FixedPoint(D: Mat, n: nat, i: nat, j: nat, m: nat)
    requires Square(D, n) && AllNonNeg(D) && i < n && j < n && m < n
    ensures Le(Run(D, n).dist[i][j], Add(Run(D, n).dist[i][m], Run(D, n).dist[m][j]))
  {
    RunIsDelta(D, n);
    DeltaTriangle(D, n, n);
  }

  // ---------------------------------------------------------------------------
  // Walks

  /** A walk with at least one step from i to j over nodes below n. */
  ghost predicate IsWalk(p: seq<nat>, n: nat, i: nat, j: nat)
  {
    |p| >= 2 && p[0] == i && p[|p| - 1] == j && forall t :: 0 <= t < |p| ==> p[t] < n
  }

  /** The length of a walk, summing the matrix cells it steps over. */
  function Weight(D: Mat, n: nat, p: seq<nat>): Dist
    requires Square(D, n) && forall t :: 0 <= t < |p| ==> p[t] < n
    decreases |p|
  {
    if |p| < 2 then Fin(0) else Add(D[p[0]][p[1]], Weight(D, n, p[1..]))
  }

  lemma {:induction false} WeightConcat(D: Mat, n: nat, p: seq<nat>, q: seq<nat>)
    requires Square(D, n) && |p| >= 1 && |q| >= 1 && p[|p| - 1] == q[0]
    requires forall t :: 0 <= t < |p| ==> p[t] < n
    requires forall t :: 0 <= t < |q| ==> q[t] < n
    ensures forall t :: 0 <= t < |p + q[1..]| ==> (p + q[1..])[t] < n
    ensures Weight(D, n, p + q[1..]) == Add(Weight(D, n, p), Weight(D, n, q))
    decreases |p|
  {
    assert forall t :: 0 <= t < |p + q[1..]| ==> (p + q[1..])[t] < n by {
      forall t | 0 <= t < |p + q[1..]| ensures (p + q[1..])[t] < n {
        if t >= |p| { assert (p + q[1..])[t] == q[t - |p| + 1]; }
      }
    }
    if |p| == 1 {
      assert p + q[1..] == q;
    } else {
      WeightConcat(D, n, p[1..], q);
      assert (p + q[1..])[1..] == p[1..] + q[1..];
      AddAssoc(D[p[0]][p[1]], Weight(D, n, p[1..]), Weight(D, n, q));
    }
  }

  /** A walk from i to m followed by one from m to j is a walk from i to j, and
      weighs the sum of the two. */
  lemma WalkJoin(D: Mat, n: nat, p: seq<nat>, q: seq<nat>, i: nat, m: nat, j: nat)
    requires Square(D, n) && IsWalk(p, n, i, m) && IsWalk(q, n, m, j)
    ensures IsWalk(p + q[1..], n, i, j)
    ensures Weight(D, n, p + q[1..]) == Add(Weight(D, n, p), Weight(D, n, q))
  {
    WeightConcat(D, n, p, q);
    assert (p + q[1..])[|p + q[1..]| - 1] == q[|q| - 1];
  }

  /** p is a walk from i to j whose weight is x whenever x is finite. */
  ghost predicate Realises(D: Mat, n: nat, p: seq<nat>, i: nat, j: nat, x: Dist)
    requires Square(D, n)
  {
    IsWalk(p, n, i, j) && (x.Fin? ==> Weight(D, n, p) == x)
  }

  /** Joining walks whose weights are x and y (when those are finite) gives a walk
      weighing x + y. */
  lemma RelayWalk(D: Mat, n: nat, p: seq<nat>, q: seq<nat>, i: nat, m: nat, j: nat, x: Dist, y: Dist)
    returns (w: seq<nat>)
    requires Square(D, n) && Realises(D, n, p, i, m, x) && Realises(D, n, q, m, j, y)
    ensures Realises(D, n, w, i, j, Add(x, y))
  {
    WalkJoin(D, n, p, q, i, m, j);
    w := p + q[1..];
  }

  /** The one-edge walk [i, j] weighs the cell (i, j). */
  lemma EdgeWalk(D: Mat, n: nat, i: nat, j: nat) returns (w: seq<nat>)
    requires Square(D, n) && i < n && j < n
    ensures Realises(D, n, w, i, j, D[i][j])
  {
    w := [i, j];
    assert w[1..] == [j];
    assert Weight(D, n, w[1..]) == Fin(0);
  }

  /** Entry (i, j) after the first k rounds, in terms of the previous round. */
  lemma DeltaCell(D: Mat, n: nat, k: nat, i: nat, j: nat)
    requires Square(D, n) && 0 < k <= n && i < n && j < n
    ensures var P := Delta(D, n, k - 1);
      Delta(D, n, k)[i][j] == if Less(Alt(P, n, k - 1, i, j), P[i][j]) then Alt(P, n, k - 1, i, j) else P[i][j]
  {
  }

  /** A walk for the relay value through k - 1 after the first k - 1 rounds. */
  lemma {:induction false} RelayFor(D: Mat, n: nat, k: nat, i: nat, j: nat) returns (w: seq<nat>)
    requires Square(D, n) && 0 < k <= n && i < n && j < n
    ensures Realises(D, n, w, i, j, Alt(Delta(D, n, k - 1), n, k - 1, i, j))
    decreases k, 0
  {
    var p := WalkFor(D, n, k - 1, i, k - 1);
    var q := WalkFor(D, n, k - 1, k - 1, j);
    w := RelayWalk(D, n, p, q, i, k - 1, j, Delta(D, n, k - 1)[i][k - 1], Delta(D, n, k - 1)[k - 1][j]);
  }

  lemma {:induction false} WalkFor(D: Mat, n: nat, k: nat, i: nat, j: nat) returns (w: seq<nat>)
    requires Square(D, n) && k <= n && i < n && j < n
    ensures Realises(D, n, w, i, j, Delta(D, n, k)[i][j])
    decreases k, 1
  {
    if k == 0 {
      w := EdgeWalk(D, n, i, j);
    } else {
      var P := Delta(D, n, k - 1);
      DeltaCell(D, n, k, i, j);
      if Less(Alt(P, n, k - 1, i, j), P[i][j]) {
        w := RelayFor(D, n, k, i, j);
      } else {
        w := WalkFor(D, n, k - 1, i, j);
      }
    }
  }

  lemma {:induction false} DeltaBelowWalks(D: Mat, n: nat, p: seq<nat>)
    requires Square(D, n) && AllNonNeg(D)
    requires |p| >= 2 && IsWalk(p, n, p[0], p[|p| - 1])
    ensures Le(Delta(D, n, n)[p[0]][p[|p| - 1]], Weight(D, n, p))
    decreases |p|
  {
    var F := Delta(D, n, n);
    DeltaDecreases(D, n, n);
    if |p| == 2 {
      assert p[1..][1..] == [];
    } else {
      DeltaBelowWalks(D, n, p[1..]);
      DeltaTriangle(D, n, n);
      var l := p[|p| - 1];
      assert Le(F[p[0]][l], Add(F[p[0]][p[1]], F[p[1]][l]));
      AddMono(F[p[0]][p[1]], F[p[1]][l], D[p[0]][p[1]], Weight(D, n, p[1..]));
    }
  }

  /** The run's entry (i, j) is the length of a shortest walk from i to j: no walk
      is shorter, and a finite entry is the length of some walk. */
  lemma ShortestWalks(D: Mat, n: nat, i: nat, j: nat)
    requires Square(D, n) && AllNonNeg(D) && i < n && j < n
    ensures forall p :: IsWalk(p, n, i, j) ==> Le(Run(D, n).dist[i][j], Weight(D, n, p))
    ensures Run(D, n).dist[i][j].Fin? ==>
      exists p :: IsWalk(p, n, i, j) && Weight(D, n, p) == Run(D, n).dist[i][j]
  {
    RunIsDelta(D, n);
    forall p | IsWalk(p, n, i, j)
      ensures Le(Run(D, n).dist[i][j], Weight(D, n, p))
    {
      DeltaBelowWalks(D, n, p);
    }
    var w := WalkFor(D, n, n, i, j);
  }

  // ---------------------------------------------------------------------------
  // The successor table

  /** What `next` satisfies throughout (zero diagonal, non-negative entries): it is
      set exactly on the finite off-diagonal cells, and its entry is a first step
      along an edge of the input matrix after which the rest is no longer than the
      remaining distance. */
  ghost predicate SuccInv(D: Mat, s: State, n: nat)
    requires Square(D, n) && Shaped(s, n)
  {
    && (forall i :: 0 <= i < n ==> s.dist[i][i] == Fin(0))
    && (forall i, j :: 0 <= i < n && 0 <= j < n ==> SuccCell(D, s, n, i, j))
  }

  /** The part of SuccInv about one cell (i, j). */
  ghost predicate SuccCell(D: Mat, s: State, n: nat, i: nat, j: nat)
    requires Square(D, n) && Shaped(s, n) && i < n && j < n
  {
    && (s.next[i][j].Some? <==> i != j && s.dist[i][j].Fin?)
    && (s.next[i][j].Some? ==>
          && s.next[i][j].value < n && s.next[i][j].value != i
          && D[i][s.next[i][j].value].Fin?
          && Le(Add(D[i][s.next[i][j].value], s.dist[s.next[i][j].value][j]), s.dist[i][j]))
  }

  lemma StartSuccInv(D: Mat, n: nat)
    requires Square(D, n) && ZeroDiagonal(D, n)
    ensures SuccInv(D, Start(D, n), n)
  {
  }

  lemma StepSuccCell(D: Mat, s: State, n: nat, k: nat, i: nat, j: nat)
    requires Square(D, n) && Shaped(s, n) && k < n && i < n && j < n
    requires AllNonNeg(s.dist) && SuccInv(D, s, n)
    ensures SuccCell(D, Step(s, n, k), n, i, j)
  {
    var t := Step(s, n, k);
    var alt := Alt(s.dist, n, k, i, j);
    assert SuccCell(D, s, n, i, k) && SuccCell(D, s, n, i, j);
    assert t.dist[i][j] == if Less(alt, s.dist[i][j]) then alt else s.dist[i][j];
    assert t.next[i][j] == if Less(alt, s.dist[i][j]) then s.next[i][k] else s.next[i][j];
    if Less(alt, s.dist[i][j]) {
      AddNonNeg(s.dist[i][k], s.dist[k][j]);
      AddNonNeg(s.dist[k][j], s.dist[i][k]);
      assert i != k;
      assert i != j;
      var m := s.next[i][k].value;
      assert Le(Add(D[i][m], s.dist[m][k]), s.dist[i][k]);
      assert Le(t.dist[m][j], Add(s.dist[m][k], s.dist[k][j]));
      AddMono(D[i][m], t.dist[m][j], D[i][m], Add(s.dist[m][k], s.dist[k][j]));
      AddAssoc(D[i][m], s.dist[m][k], s.dist[k][j]);
      AddMono(Add(D[i][m], s.dist[m][k]), s.dist[k][j], s.dist[i][k], s.dist[k][j]);
    } else if s.next[i][j].Some? {
      var m := s.next[i][j].value;
      assert Le(t.dist[m][j], s.dist[m][j]);
      AddMono(D[i][m], t.dist[m][j], D[i][m], s.dist[m][j]);
    }
  }

  lemma StepKeepsZero(s: State, n: nat, k: nat, i: nat)
    requires Shaped(s, n) && k < n && i < n && AllNonNeg(s.dist) && s.dist[i][i] == Fin(0)
    ensures Step(s, n, k).dist[i][i] == Fin(0)
  {
    AddNonNeg(s.dist[i][k], s.dist[k][i]);
    assert Step(s, n, k).dist[i][i] == StepDist(s.dist, n, k)[i][i];
  }

  lemma StepSuccInv(D: Mat, s: State, n: nat, k: nat)
    requires Square(D, n) && Shaped(s, n) && k < n
    requires AllNonNeg(s.dist) && SuccInv(D, s, n)
    ensures SuccInv(D, Step(s, n, k), n)
  {
    var t := Step(s, n, k);
    forall i | 0 <= i < n
      ensures t.dist[i][i] == Fin(0)
    {
      StepKeepsZero(s, n, k, i);
    }
    forall i, j | 0 <= i < n && 0 <= j < n
      ensures SuccCell(D, t, n, i, j)
    {
      StepSuccCell(D, s, n, k, i, j);
    }
  }

  lemma {:induction false} StepsSuccInv(D: Mat, n: nat, k: nat)
    requires Square(D, n) && AllNonNeg(D) && ZeroDiagonal(D, n) && k <= n
    ensures SuccInv(D, Steps(Start(D, n), n, k), n)
    decreases k
  {
    if k == 0 {
      StartSuccInv(D, n);
    } else {
      StepsSuccInv(D, n, k - 1);
      StepsSuccNext(D, n, k);
    }
  }

  lemma StepsSuccNext(D: Mat, n: nat, k: nat)
    requires Square(D, n) && AllNonNeg(D) && 0 < k <= n
    requires SuccInv(D, Steps(Start(D, n), n, k - 1), n)
    ensures SuccInv(D, Steps(Start(D, n), n, k), n)
  {
    var c := Steps(Start(D, n), n, k - 1);
    assert Steps(Start(D, n), n, k) == Step(c, n, k - 1);
    StepsNonNeg(D, n, k - 1);
    StepSuccInv(D, c, n, k - 1);
  }

  lemma StepsNonNeg(D: Mat, n: nat, k: nat)
    requires Square(D, n) && AllNonNeg(D) && k <= n
    ensures AllNonNeg(Steps(Start(D, n), n, k).dist)
  {
    StepsDist(Start(D, n), n, k);
    DeltaNonNeg(D, n, k);
  }

  /** On the run's result, for i != j with a finite distance the successor m exists,
      (i, m) is an edge of the input, and the distance splits exactly into that edge
      plus the distance from m to j. */
  lemma SuccessorStep(D: Mat, n: nat, i: nat, j: nat)
    requires Square(D, n) && AllNonNeg(D) && ZeroDiagonal(D, n) && i < n && j < n
    requires i != j && Run(D, n).dist[i][j].Fin?
    ensures var F := Run(D, n);
      && F.next[i][j].Some? && F.next[i][j].value < n && F.next[i][j].value != i
      && D[i][F.next[i][j].value].Fin?
      && F.dist[i][j] == Add(D[i][F.next[i][j].value], F.dist[F.next[i][j].value][j])
  {
    var F := Run(D, n);
    PassesAreSteps(Start(D, n), n, n);
    StepsSuccInv(D, n, n);
    assert SuccCell(D, F, n, i, j);
    var m := F.next[i][j].value;
    FixedPoint(D, n, i, j, m);
    RunIsDelta(D, n);
    DeltaDecreases(D, n, n);
    AddMono(F.dist[i][m], F.dist[m][j], D[i][m], F.dist[m][j]);
  }

  /** Following `next[.][j]` from i: each node before the last differs from j and
      its successor is the next node. */
  ghost predicate IsSuccWalk(N: Succ, n: nat, j: nat, p: seq<nat>)
    requires Square(N, n) && j < n
  {
    && |p| >= 1
    && (forall t :: 0 <= t < |p| ==> p[t] < n)
    && (forall t :: 0 <= t < |p| - 1 ==> p[t] != j && N[p[t]][j] == Some(p[t + 1]))
  }

  /** A successor walk from i that reaches j has exactly the length the run reports:
      the reconstructed route is a shortest walk. */
  lemma {:induction false} SuccWalkWeight(D: Mat, n: nat, j: nat, p: seq<nat>)
    requires Square(D, n) && AllNonNeg(D) && ZeroDiagonal(D, n) && j < n
    requires IsSuccWalk(Run(D, n).next, n, j, p) && |p| >= 2 && p[|p| - 1] == j
    ensures Run(D, n).dist[p[0]][j].Fin?
    ensures Weight(D, n, p) == Run(D, n).dist[p[0]][j]
    decreases |p|
  {
    var F := Run(D, n);
    PassesAreSteps(Start(D, n), n, n);
    StepsSuccInv(D, n, n);
    assert 0 < |p| - 1;
    assert F.next[p[0]][j] == Some(p[1]);
    assert SuccCell(D, F, n, p[0], j);
    SuccessorStep(D, n, p[0], j);
    if |p| == 2 {
      assert p[1..][1..] == [];
      RunIsDelta(D, n);
      DeltaTriangle(D, n, n);
    } else {
      SuccWalkWeight(D, n, j, p[1..]);
    }
  }

  /** Along any successor walk towards j that starts at a finite entry, every node
      other than j has a successor below n: reconstruction never meets a null. */
  lemma {:induction false} SuccWalkStaysFinite(D: Mat, n: nat, j: nat, p: seq<nat>)
    requires Square(D, n) && AllNonNeg(D) && ZeroDiagonal(D, n) && j < n
    requires IsSuccWalk(Run(D, n).next, n, j, p) && Run(D, n).dist[p[0]][j].Fin?
    ensures Run(D, n).dist[p[|p| - 1]][j].Fin?
    ensures p[|p| - 1] != j ==>
      Run(D, n).next[p[|p| - 1]][j].Some? && Run(D, n).next[p[|p| - 1]][j].value < n
    decreases |p|
  {
    var F := Run(D, n);
    if |p| > 1 {
      SuccessorStep(D, n, p[0], j);
      SuccWalkStaysFinite(D, n, j, p[1..]);
    } else if p[0] != j {
      SuccessorStep(D, n, p[0], j);
    }
  }
}
