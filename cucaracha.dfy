/** The second Floyd–Warshall page (`cucaracha/floyd.component.ts`): a matrix field
    initialised to the graph without edges, and a run of the plain triple loop (no
    successor table) on a copy of it, recording the matrix after every round.

    The source makes its copy with `JSON.parse(JSON.stringify(...))`, which turns
    every `Infinity` into `null`; JavaScript then reads `null` as 0 in `+` and `<`.
    `FloydOnJsonCopy` models that copy as written, and the page object uses it;
    `FloydOnCopy` is the run with a copy that keeps "no path", the one intended. */
module PlainFloyd {
  import opened Distance
  import opened Matrix
  import opened FloydSpec
  import Floyd

  // ---------------------------------------------------------------------------
  // The copy as written

  /** A cell after the JSON round trip: a finite number, or null where the
      original held Infinity. */
  datatype Json = JNum(v: int) | JNull

  type JMat = seq<seq<Json>>

  /** `JSON.parse(JSON.stringify(M))`. */
  function JsonCopy(M: Mat): (C: JMat)
    ensures |C| == |M|
    ensures forall i :: 0 <= i < |M| ==> |C[i]| == |M[i]|
    ensures forall i, j :: 0 <= i < |M| && 0 <= j < |M[i]| ==>
      (C[i][j].JNull? <==> M[i][j].Inf?) && (M[i][j].Fin? ==> C[i][j] == JNum(M[i][j].v))
  {
    seq(|M|, i requires 0 <= i < |M| => seq(|M[i]|, j requires 0 <= j < |M[i]| =>
      if M[i][j].Inf? then JNull else JNum(M[i][j].v)))
  }

  /** The number JavaScript reads from a copied cell in `+` and `<`: null is 0. */
  function Num(c: Json): int
  {
    if c.JNull? then 0 else c.v
  }

  /** `if (dist[i][k] + dist[k][j] < dist[i][j]) dist[i][j] = dist[i][k] + dist[k][j]`
      on the copied cells. */
  function JCell(C: JMat, n: nat, k: nat, i: nat, j: nat): (R: JMat)
    requires Square(C, n) && k < n && i < n && j < n
    ensures Square(R, n)
  {
    var sum := Num(C[i][k]) + Num(C[k][j]);
    if sum < Num(C[i][j]) then Set(C, i, j, JNum(sum)) else C
  }

  function JRow(C: JMat, n: nat, k: nat, i: nat, j: nat): (R: JMat)
    requires Square(C, n) && k < n && i < n && j <= n
    ensures Square(R, n)
    decreases j
  {
    if j == 0 then C else JCell(JRow(C, n, k, i, j - 1), n, k, i, j - 1)
  }

  function JPass(C: JMat, n: nat, k: nat, i: nat): (R: JMat)
    requires Square(C, n) && k < n && i <= n
    ensures Square(R, n)
    decreases i
  {
    if i == 0 then C else JRow(JPass(C, n, k, i - 1), n, k, i - 1, n)
  }

  function JPasses(C: JMat, n: nat, k: nat): (R: JMat)
    requires Square(C, n) && k <= n
    ensures Square(R, n)
    decreases k
  {
    if k == 0 then C else JPass(JPasses(C, n, k - 1), n, k - 1, n)
  }

  /** The matrices the page prints after each round, as written. */
  function JSnapshots(D: Mat, n: nat): (r: seq<JMat>)
    requires Square(D, n)
    ensures |r| == n
  {
    seq(n, k requires 0 <= k < n => JPasses(JsonCopy(D), n, k + 1))
  }

  /** Every cell is a non-negative number or null. */
  predicate JNonNeg(C: JMat)
  {
    forall a, b :: 0 <= a < |C| && 0 <= b < |C[a]| ==> Num(C[a][b]) >= 0
  }

  /** From C0 to C no cell read as a number went up, and, when C0 holds no negative
      number, C holds none either and every null of C0 is still null. */
  ghost predicate Settles(C0: JMat, C: JMat, n: nat)
    requires Square(C0, n) && Square(C, n)
  {
    && (forall a, b :: 0 <= a < n && 0 <= b < n ==> Num(C[a][b]) <= Num(C0[a][b]))
    && (JNonNeg(C0) ==> JNonNeg(C) && forall a, b :: 0 <= a < n && 0 <= b < n && C0[a][b].JNull? ==> C[a][b].JNull?)
  }

  lemma SettlesTrans(A: JMat, B: JMat, C: JMat, n: nat)
    requires Square(A, n) && Square(B, n) && Square(C, n)
    requires Settles(A, B, n) && Settles(B, C, n)
    ensures Settles(A, C, n)
  {
  }

  /** A step writes only a smaller number, and never over a null when the cells are
      non-negative: the sum of two non-negative cells is not below 0, which is what
      null reads as. */
  lemma JCellSettles(C: JMat, n: nat, k: nat, i: nat, j: nat)
    requires Square(C, n) && k < n && i < n && j < n
    ensures Settles(C, JCell(C, n, k, i, j), n)
  {
  }

  lemma {:induction false} JRowSettles(C: JMat, n: nat, k: nat, i: nat, j: nat)
    requires Square(C, n) && k < n && i < n && j <= n
    ensures Settles(C, JRow(C, n, k, i, j), n)
    decreases j
  {
    if j > 0 {
      JRowSettles(C, n, k, i, j - 1);
      JCellSettles(JRow(C, n, k, i, j - 1), n, k, i, j - 1);
      SettlesTrans(C, JRow(C, n, k, i, j - 1), JRow(C, n, k, i, j), n);
    }
  }

  lemma {:induction false} JPassSettles(C: JMat, n: nat, k: nat, i: nat)
    requires Square(C, n) && k < n && i <= n
    ensures Settles(C, JPass(C, n, k, i), n)
    decreases i
  {
    if i > 0 {
      JPassSettles(C, n, k, i - 1);
      JRowSettles(JPass(C, n, k, i - 1), n, k, i - 1, n);
      SettlesTrans(C, JPass(C, n, k, i - 1), JPass(C, n, k, i), n);
    }
  }

  /** Across the whole run as written, no cell read as a number goes up, and with
      non-negative weights every cell that was Infinity in the input is still null at
      the end of every round. */
  lemma {:induction false} JPassesSettle(C: JMat, n: nat, k: nat)
    requires Square(C, n) && k <= n
    ensures Settles(C, JPasses(C, n, k), n)
    decreases k
  {
    if k > 0 {
      JPassesSettle(C, n, k - 1);
      JPassSettles(JPasses(C, n, k - 1), n, k - 1, n);
      SettlesTrans(C, JPasses(C, n, k - 1), JPasses(C, n, k), n);
    }
  }

  /** The buffer is n-by-n and holds C. */
  ghost predicate HoldsJ(dist: array2<Json>, C: JMat, n: nat)
    reads dist
  {
    dist.Length0 == n && dist.Length1 == n && Square(C, n)
    && forall a, b :: 0 <= a < n && 0 <= b < n ==> dist[a, b] == C[a][b]
  }

  /** A fresh n-by-n buffer holding C. */
  method LoadJ(C: JMat, n: nat) returns (dist: array2<Json>)
    requires Square(C, n)
    ensures fresh(dist) && HoldsJ(dist, C, n)
  {
    dist := new Json[n, n]((a, b) requires 0 <= a < n && 0 <= b < n => C[a][b]);
  }

  /** The innermost step on the copied cells. */
  method JRelaxCell(dist: array2<Json>, k: nat, i: nat, j: nat, ghost C: JMat, ghost n: nat)
    requires HoldsJ(dist, C, n) && k < n && i < n && j < n
    modifies dist
    ensures HoldsJ(dist, JCell(C, n, k, i, j), n)
  {
    if Num(dist[i, k]) + Num(dist[k, j]) < Num(dist[i, j]) {
      dist[i, j] := JNum(Num(dist[i, k]) + Num(dist[k, j]));
    }
  }

  /** Round k on the copied cells, in row-major order. */
  method JRelax(dist: array2<Json>, k: nat, ghost C: JMat)
    requires HoldsJ(dist, C, dist.Length0) && k < dist.Length0
    modifies dist
    ensures HoldsJ(dist, JPass(C, dist.Length0, k, dist.Length0), dist.Length0)
  {
    var n := dist.Length0;
    var i := 0;
    while i < n
      invariant 0 <= i <= n
      invariant HoldsJ(dist, JPass(C, n, k, i), n)
    {
      JRelaxRow(dist, k, i, JPass(C, n, k, i));
      i := i + 1;
    }
  }

  /** Row i of round k, left to right. */
  method JRelaxRow(dist: array2<Json>, k: nat, i: nat, ghost R: JMat)
    requires HoldsJ(dist, R, dist.Length0) && k < dist.Length0 && i < dist.Length0
    modifies dist
    ensures HoldsJ(dist, JRow(R, dist.Length0, k, i, dist.Length0), dist.Length0)
  {
    var n := dist.Length0;
    var j := 0;
    while j < n
      invariant 0 <= j <= n
      invariant HoldsJ(dist, JRow(R, n, k, i, j), n)
    {
      JRelaxCell(dist, k, i, j, JRow(R, n, k, i, j), n);
      j := j + 1;
    }
  }

  /** One round of the outer loop on the copy, and the matrix it leaves. */
  method JRound(dist: array2<Json>, k: nat, ghost C0: JMat) returns (after: JMat)
    requires Square(C0, dist.Length0) && k < dist.Length0 && HoldsJ(dist, JPasses(C0, dist.Length0, k), dist.Length0)
    modifies dist
    ensures HoldsJ(dist, JPasses(C0, dist.Length0, k + 1), dist.Length0)
    ensures after == JPasses(C0, dist.Length0, k + 1)
  {
    JRelax(dist, k, JPasses(C0, dist.Length0, k));
    SquareExt(Contents(dist), JPasses(C0, dist.Length0, k + 1), dist.Length0);
    after := Contents(dist);
  }

  /** Appending round k's matrix keeps the printed list one matrix per round. */
  lemma JRoundsGrow(C0: JMat, n: nat, k: nat, its: seq<JMat>, x: JMat)
    requires Square(C0, n) && k < n && |its| == k
    requires forall t :: 0 <= t < k ==> its[t] == JPasses(C0, n, t + 1)
    requires x == JPasses(C0, n, k + 1)
    ensures forall t :: 0 <= t < k + 1 ==> (its + [x])[t] == JPasses(C0, n, t + 1)
  {
  }

  lemma JSnapshotsAre(D: Mat, n: nat, its: seq<JMat>)
    requires Square(D, n) && |its| == n
    requires forall t :: 0 <= t < n ==> its[t] == JPasses(JsonCopy(D), n, t + 1)
    ensures its == JSnapshots(D, n)
  {
  }

  /** `ejecutarFloydCanvas` as written: the triple loop on the JSON copy, returning
      the matrix printed after each round and the final one. */
  method FloydOnJsonCopy(matriz: Mat) returns (iteraciones: seq<JMat>, resultado: JMat)
    requires Square(matriz, |matriz|)
    ensures iteraciones == JSnapshots(matriz, |matriz|)
    ensures resultado == JPasses(JsonCopy(matriz), |matriz|, |matriz|)
  {
    var n := |matriz|;
    var C0 := JsonCopy(matriz);
    var dist := LoadJ(C0, n);
    iteraciones := [];
    var k := 0;
    while k < n
      invariant 0 <= k <= n
      invariant HoldsJ(dist, JPasses(C0, n, k), n)
      invariant |iteraciones| == k
      invariant forall t :: 0 <= t < k ==> iteraciones[t] == JPasses(C0, n, t + 1)
    {
      var after := JRound(dist, k, C0);
      JRoundsGrow(C0, n, k, iteraciones, after);
      iteraciones := iteraciones + [after];
      k := k + 1;
    }
    SquareExt(Contents(dist), JPasses(C0, n, n), n);
    resultado := Contents(dist);
    JSnapshotsAre(matriz, n, iteraciones);
  }

  // ---------------------------------------------------------------------------
  // The copy that keeps "no path"

  /** The buffer is n-by-n and holds M. */
  ghost predicate Holds(dist: array2<Dist>, M: Mat, n: nat)
    reads dist
  {
    dist.Length0 == n && dist.Length1 == n && Square(M, n)
    && forall a, b :: 0 <= a < n && 0 <= b < n ==> dist[a, b] == M[a][b]
  }

  /** A fresh n-by-n buffer holding M. */
  method Load(M: Mat, n: nat) returns (dist: array2<Dist>)
    requires Square(M, n)
    ensures fresh(dist) && Holds(dist, M, n)
  {
    dist := new Dist[n, n]((a, b) requires 0 <= a < n && 0 <= b < n => M[a][b]);
  }

  /** The innermost step: cell (i, j) improved through k, as `Cell` does to the
      distances of c. */
  method RelaxCell(dist: array2<Dist>, k: nat, i: nat, j: nat, ghost c: State, ghost n: nat)
    requires Shaped(c, n) && Holds(dist, c.dist, n) && k < n && i < n && j < n
    modifies dist
    ensures Holds(dist, Cell(c, n, k, i, j).dist, n)
  {
    var alt := Add(dist[i, k], dist[k, j]);
    if Less(alt, dist[i, j]) {
      dist[i, j] := alt;
    }
  }

  /** Round k, in row-major order. */
  method Relax(dist: array2<Dist>, k: nat, ghost c: State)
    requires Shaped(c, dist.Length0) && Holds(dist, c.dist, dist.Length0) && k < dist.Length0
    modifies dist
    ensures Holds(dist, Pass(c, dist.Length0, k, dist.Length0).dist, dist.Length0)
  {
    var n := dist.Length0;
    var i := 0;
    while i < n
      invariant 0 <= i <= n
      invariant Holds(dist, Pass(c, n, k, i).dist, n)
    {
      RelaxRow(dist, k, i, Pass(c, n, k, i));
      i := i + 1;
    }
  }

  /** Row i of round k, left to right. */
  method RelaxRow(dist: array2<Dist>, k: nat, i: nat, ghost r: State)
    requires Shaped(r, dist.Length0) && Holds(dist, r.dist, dist.Length0) && k < dist.Length0 && i < dist.Length0
    modifies dist
    ensures Holds(dist, Row(r, dist.Length0, k, i, dist.Length0).dist, dist.Length0)
  {
    var n := dist.Length0;
    var j := 0;
    while j < n
      invariant 0 <= j <= n
      invariant Holds(dist, Row(r, n, k, i, j).dist, n)
    {
      RelaxCell(dist, k, i, j, Row(r, n, k, i, j), n);
      j := j + 1;
    }
  }

  /** One round of the outer loop on the copy, and the matrix it leaves. */
  method Round(dist: array2<Dist>, k: nat, ghost s: State) returns (after: Mat)
    requires Shaped(s, dist.Length0) && k < dist.Length0 && Holds(dist, Passes(s, dist.Length0, k).dist, dist.Length0)
    modifies dist
    ensures Holds(dist, Passes(s, dist.Length0, k + 1).dist, dist.Length0)
    ensures after == Passes(s, dist.Length0, k + 1).dist
  {
    Relax(dist, k, Passes(s, dist.Length0, k));
    SquareExt(Contents(dist), Passes(s, dist.Length0, k + 1).dist, dist.Length0);
    after := Contents(dist);
  }

  /** Appending round k's matrix keeps the list one matrix per round. */
  lemma RoundsGrow(s: State, n: nat, k: nat, its: seq<Mat>, x: Mat)
    requires Shaped(s, n) && k < n && |its| == k
    requires forall t :: 0 <= t < k ==> its[t] == Passes(s, n, t + 1).dist
    requires x == Passes(s, n, k + 1).dist
    ensures forall t :: 0 <= t < k + 1 ==> (its + [x])[t] == Passes(s, n, t + 1).dist
  {
  }

  /** The triple loop on a copy that keeps Infinity: the distances are exactly those
      of the in-place run (`FloydSpec.Run`, whose successor table this page does not
      keep), the matrix after each round is that run's, and there are n rounds. */
  method FloydOnCopy(matriz: Mat) returns (iteraciones: seq<Mat>, resultado: Mat)
    requires Square(matriz, |matriz|)
    ensures resultado == Run(matriz, |matriz|).dist
    ensures iteraciones == Floyd.Snapshots(matriz, |matriz|) && |iteraciones| == |matriz|
  {
    var n := |matriz|;
    var dist := Load(matriz, n);
    ghost var s := Start(matriz, n);
    iteraciones := [];
    var k := 0;
    while k < n
      invariant 0 <= k <= n
      invariant Holds(dist, Passes(s, n, k).dist, n)
      invariant |iteraciones| == k
      invariant forall t :: 0 <= t < k ==> iteraciones[t] == Passes(s, n, t + 1).dist
    {
      var after := Round(dist, k, s);
      RoundsGrow(s, n, k, iteraciones, after);
      iteraciones := iteraciones + [after];
      k := k + 1;
    }
    SquareExt(Contents(dist), Passes(s, n, n).dist, n);
    resultado := Contents(dist);
    Floyd.SnapshotsAre(matriz, n, iteraciones);
  }

  // ---------------------------------------------------------------------------
  // The discrepancy

  /** Three nodes with edges 0 -> 1 (weight 1) and 1 -> 2 (weight 2) and no edge
      0 -> 2. */
  function Chain(): (D: Mat)
    ensures Square(D, 3) && AllNonNeg(D) && ZeroDiagonal(D, 3)
  {
    [[Fin(0), Fin(1), Inf], [Inf, Fin(0), Fin(2)], [Inf, Inf, Fin(0)]]
  }

  /** With non-negative weights, a pair (i, j) that the input leaves unconnected
      stays null in every printed round and in the result of the run as written,
      even when a relay m connects it; the run on an Infinity-keeping copy reports
      it finite and no longer than the relay. */
  lemma JsonCopyLosesRelays(D: Mat, n: nat, i: nat, m: nat, j: nat)
    requires Square(D, n) && AllNonNeg(D) && i < n && m < n && j < n
    requires D[i][j].Inf? && D[i][m].Fin? && D[m][j].Fin?
    ensures forall k :: 0 <= k < n ==> JSnapshots(D, n)[k][i][j] == JNull
    ensures JPasses(JsonCopy(D), n, n)[i][j] == JNull
    ensures Run(D, n).dist[i][j].Fin? && Le(Run(D, n).dist[i][j], Add(D[i][m], D[m][j]))
  {
    var C := JsonCopy(D);
    assert JNonNeg(C);
    forall k | 0 <= k <= n
      ensures JPasses(C, n, k)[i][j] == JNull
    {
      JPassesSettle(C, n, k);
    }
    var p := [i, m, j];
    assert IsWalk(p, n, i, j);
    assert Weight(D, n, p) == Add(D[i][m], D[m][j]) by {
      assert p[1..] == [m, j] && p[1..][1..] == [j];
      assert Weight(D, n, [j]) == Fin(0);
      assert Weight(D, n, [m, j]) == Add(D[m][j], Fin(0)) == D[m][j];
    }
    ShortestWalks(D, n, i, j);
  }

  /** Chain is such an input: the run as written shows no route from node 0 to
      node 2, the run on an Infinity-keeping copy one of length at most 3. */
  lemma JsonCopyLosesRoutes()
    ensures JPasses(JsonCopy(Chain()), 3, 3)[0][2] == JNull
    ensures Run(Chain(), 3).dist[0][2].Fin? && Run(Chain(), 3).dist[0][2].v <= 3
  {
    JsonCopyLosesRelays(Chain(), 3, 0, 1, 2);
  }

  /** Three nodes with edges 0 -> 2 (weight 5) and 1 -> 2 (weight 1), and nothing
      into node 1. */
  function Shortcut(): (D: Mat)
    ensures Square(D, 3) && AllNonNeg(D) && ZeroDiagonal(D, 3)
  {
    [[Fin(0), Inf, Fin(5)], [Inf, Fin(0), Fin(1)], [Inf, Inf, Fin(0)]]
  }

  /** Reading null as 0 also lowers finite cells: on Shortcut the run as written
      relays 0 -> 2 through the unreachable node 1 (`null + 1 < 5`) and shows 1,
      where the distance, and the run on an Infinity-keeping copy, give 5. */
  lemma JsonCopyTakesPhantomRelays()
    ensures JPasses(JsonCopy(Shortcut()), 3, 3)[0][2] == JNum(1)
    ensures Run(Shortcut(), 3).dist[0][2] == Fin(5)
  {
    ShortcutAsWritten();
    ShortcutDistance();
  }

  /** The run as written on Shortcut ends with 1 at (0, 2): in round 1 the relay
      through node 1 reads `null + 1 < 5`. */
  lemma ShortcutAsWritten()
    ensures JPasses(JsonCopy(Shortcut()), 3, 3)[0][2] == JNum(1)
  {
  }

  /** On Shortcut the distance from 0 to 2 is 5: the direct edge, and no walk is
      lighter. */
  lemma ShortcutDistance()
    ensures Run(Shortcut(), 3).dist[0][2] == Fin(5)
  {
    var D := Shortcut();
    var direct := [0, 2];
    assert Weight(D, 3, direct) == Fin(5) by {
      assert direct[1..] == [2];
    }
    forall q | IsWalk(q, 3, 0, 2)
      ensures Le(Weight(D, 3, direct), Weight(D, 3, q))
    {
      ShortcutWalks(q);
    }
    LeastWalk(D, 3, 0, 2, direct);
  }

  /** A finite walk no heavier than any other walk between the same nodes gives
      the run's entry. */
  lemma LeastWalk(D: Mat, n: nat, i: nat, j: nat, p: seq<nat>)
    requires Square(D, n) && AllNonNeg(D) && i < n && j < n
    requires IsWalk(p, n, i, j) && Weight(D, n, p).Fin?
    requires forall q :: IsWalk(q, n, i, j) ==> Le(Weight(D, n, p), Weight(D, n, q))
    ensures Run(D, n).dist[i][j] == Weight(D, n, p)
  {
    ShortestWalks(D, n, i, j);
    var q :| IsWalk(q, n, i, j) && Weight(D, n, q) == Run(D, n).dist[i][j];
  }

  /** Every walk of Shortcut from 0 to 2 weighs at least 5: it can only leave 0
      over the edge of weight 5 (node 1 is out of reach). */
  lemma {:induction false} ShortcutWalks(p: seq<nat>)
    requires IsWalk(p, 3, 0, 2)
    ensures Le(Fin(5), Weight(Shortcut(), 3, p))
    decreases |p|
  {
    var D := Shortcut();
    var q := p[1..];
    assert forall t :: 0 <= t < |q| ==> q[t] == p[t + 1];
    if p[1] == 0 {
      ShortcutWalks(q);
    } else if p[1] == 2 {
      WeightNonNeg(D, 3, q);
    }
  }

  /** With non-negative cells no walk has a negative weight. */
  lemma {:induction false} WeightNonNeg(D: Mat, n: nat, p: seq<nat>)
    requires Square(D, n) && AllNonNeg(D) && forall t :: 0 <= t < |p| ==> p[t] < n
    ensures Le(Fin(0), Weight(D, n, p))
    decreases |p|
  {
    if |p| >= 2 {
      var q := p[1..];
      assert forall t :: 0 <= t < |q| ==> q[t] == p[t + 1];
      WeightNonNeg(D, n, q);
    }
  }

  // ---------------------------------------------------------------------------
  // The page

  class CanvasFloyd {
    var numNodos: int
    var matriz: Mat
    var iteracionesCanvas: seq<JMat>
    var resultadoCanvas: JMat

    /** The page as created: three nodes asked for, and `ngAfterViewInit` has
        generated their matrix. */
    constructor ()
      ensures numNodos == 3 && matriz == Initial(3)
      ensures iteracionesCanvas == [] && resultadoCanvas == []
    {
      numNodos := 3;
      matriz := [];
      iteracionesCanvas := [];
      resultadoCanvas := [];
      new;
      GenerarMatriz();
    }

    /** `generarMatriz`: a numNodos-by-numNodos matrix of Infinity, then 0 on the
        diagonal; a negative count gives the empty matrix. */
    method GenerarMatriz()
      modifies this`matriz
      ensures matriz == Initial(if numNodos < 0 then 0 else numNodos)
    {
      var n := if numNodos < 0 then 0 else numNodos;
      matriz := seq(n, _ => seq(n, _ => Inf));
      var i := 0;
      while i < n
        invariant 0 <= i <= n && Square(matriz, n)
        invariant forall a, b :: 0 <= a < n && 0 <= b < n ==> matriz[a][b] == if a == b && a < i then Fin(0) else Inf
      {
        matriz := matriz[i := matriz[i][i := Fin(0)]];
        i := i + 1;
      }
      SquareExt(matriz, Initial(n), n);
    }

    /** `ejecutarFloydCanvas`, on the JSON copy as written: the field `matriz` is
        left as it was, and the page shows the copied matrix after each of the n
        rounds and at the end. With non-negative weights, every pair the matrix
        leaves without an edge is shown as null at the end, whatever routes exist
        (`JsonCopyLosesRelays`); and since null reads as 0, a finite cell can drop
        through a node nothing reaches (`JsonCopyTakesPhantomRelays`). */
    method EjecutarFloydCanvas()
      requires Square(matriz, |matriz|)
      modifies this`iteracionesCanvas, this`resultadoCanvas
      ensures matriz == old(matriz)
      ensures iteracionesCanvas == JSnapshots(matriz, |matriz|)
      ensures resultadoCanvas == JPasses(JsonCopy(matriz), |matriz|, |matriz|)
      ensures AllNonNeg(matriz) ==>
        forall i, j :: 0 <= i < |matriz| && 0 <= j < |matriz| && matriz[i][j].Inf? ==> resultadoCanvas[i][j].JNull?
    {
      iteracionesCanvas, resultadoCanvas := FloydOnJsonCopy(matriz);
      if AllNonNeg(matriz) {
        assert JNonNeg(JsonCopy(matriz));
        JPassesSettle(JsonCopy(matriz), |matriz|, |matriz|);
      }
    }
  }
}
