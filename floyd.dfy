/** The Floyd–Warshall editor (`quesobueno/floyd.component.ts`): the matrix the user
    types, the graph drawn on the canvas, the in-place algorithm with its successor
    table and per-round snapshots, and route reconstruction. */
module Floyd {
  import opened Distance
  import opened Matrix
  import opened FloydSpec
  import opened Graph
  import Counting

  // ---------------------------------------------------------------------------
  // The in-place algorithm

  /** The state held by the two buffers. */
  ghost function St(dist: array2<Dist>, next: array2<Option<nat>>): State
    reads dist, next
  {
    State(Contents(dist), Contents(next))
  }

  /** The buffers are n-by-n and hold s cell by cell. */
  ghost predicate Mirrors(dist: array2<Dist>, next: array2<Option<nat>>, s: State)
    reads dist, next
  {
    var n := dist.Length0;
    && dist.Length1 == n && next.Length0 == n && next.Length1 == n
    && Shaped(s, n)
    && (forall a, b :: 0 <= a < n && 0 <= b < n ==> dist[a, b] == s.dist[a][b])
    && (forall a, b :: 0 <= a < n && 0 <= b < n ==> next[a, b] == s.next[a][b])
  }

  lemma MirrorsState(dist: array2<Dist>, next: array2<Option<nat>>, s: State)
    requires Mirrors(dist, next, s)
    ensures St(dist, next) == s
  {
    SquareExt(Contents(dist), s.dist, dist.Length0);
    SquareExt(Contents(next), s.next, dist.Length0);
  }

  /** The matrices shown after each round k = 0 .. n - 1. */
  function Snapshots(D: Mat, n: nat): (r: seq<Mat>)
    requires Square(D, n)
    ensures |r| == n
  {
    seq(n, k requires 0 <= k < n => Passes(Start(D, n), n, k + 1).dist)
  }

  /** The innermost step: cell (i, j) improved through k. */
  method RelaxCell(dist: array2<Dist>, next: array2<Option<nat>>, k: nat, i: nat, j: nat, ghost c: State)
    requires Mirrors(dist, next, c) && k < dist.Length0 && i < dist.Length0 && j < dist.Length0
    modifies dist, next
    ensures Mirrors(dist, next, Cell(c, dist.Length0, k, i, j))
  {
    var alt := if dist[i, k].Inf? || dist[k, j].Inf? then Inf else Fin(dist[i, k].v + dist[k, j].v);
    if Less(alt, dist[i, j]) {
      dist[i, j] := alt;
      next[i, j] := next[i, k];
    }
  }

  /** Row i of round k: every cell (i, j), left to right, is improved through k. */
  method RelaxRow(dist: array2<Dist>, next: array2<Option<nat>>, k: nat, i: nat, ghost r: State)
    requires Mirrors(dist, next, r) && k < dist.Length0 && i < dist.Length0
    modifies dist, next
    ensures Mirrors(dist, next, Row(r, dist.Length0, k, i, dist.Length0))
  {
    var n := dist.Length0;
    ghost var c := r;
    var j := 0;
    while j < n
      invariant 0 <= j <= n
      invariant c == Row(r, n, k, i, j) && Mirrors(dist, next, c)
    {
      RelaxCell(dist, next, k, i, j, c);
      c := Cell(c, n, k, i, j);
      j := j + 1;
    }
  }

  /** Round k: every cell (i, j), in row-major order, is improved through k. */
  method Relax(dist: array2<Dist>, next: array2<Option<nat>>, k: nat, ghost c: State)
    requires Mirrors(dist, next, c) && k < dist.Length0
    modifies dist, next
    ensures Mirrors(dist, next, Pass(c, dist.Length0, k, dist.Length0))
  {
    var n := dist.Length0;
    var i := 0;
    while i < n
      invariant 0 <= i <= n
      invariant Mirrors(dist, next, Pass(c, n, k, i))
    {
      RelaxRow(dist, next, k, i, Pass(c, n, k, i));
      i := i + 1;
    }
  }

  /** The successor table before the first round: `next[i][j]` is j on every finite
      off-diagonal cell and null elsewhere. */
  method InitSuccessors(dist: array2<Dist>) returns (next: array2<Option<nat>>)
    requires dist.Length0 == dist.Length1
    ensures fresh(next) && Mirrors(dist, next, Start(Contents(dist), dist.Length0))
  {
    var n := dist.Length0;
    ghost var D: Mat := Contents(dist);
    next := new Option<nat>[n, n]((_, _) => None);
    var i := 0;
    while i < n
      invariant 0 <= i <= n
      invariant forall a, b :: 0 <= a < n && 0 <= b < n ==>
        next[a, b] == if a < i && a != b && D[a][b].Fin? then Some(b) else None
    {
      var j := 0;
      while j < n
        invariant 0 <= j <= n
        invariant forall a, b :: 0 <= a < n && 0 <= b < n ==>
          next[a, b] == if (a < i || (a == i && b < j)) && a != b && D[a][b].Fin? then Some(b) else None
      {
        if i != j && dist[i, j].Fin? {
          next[i, j] := Some(j);
        }
        j := j + 1;
      }
      i := i + 1;
    }
  }

  /** `floydWarshall`: updates dist in place, returns the successor table and the
      matrix after each round. */
  method FloydWarshall(dist: array2<Dist>) returns (next: array2<Option<nat>>, snapshots: seq<Mat>)
    requires dist.Length0 == dist.Length1
    modifies dist
    ensures fresh(next) && next.Length0 == dist.Length0 && next.Length1 == dist.Length0
    ensures St(dist, next) == Run(old(Contents(dist)), dist.Length0)
    ensures snapshots == Snapshots(old(Contents(dist)), dist.Length0)
  {
    var n := dist.Length0;
    ghost var D: Mat := Contents(dist);
    next := InitSuccessors(dist);
    ghost var s := Start(D, n);
    snapshots := [];
    var k := 0;
    while k < n
      invariant 0 <= k <= n
      invariant Mirrors(dist, next, Passes(s, n, k))
      invariant |snapshots| == k
      invariant forall t :: 0 <= t < k ==> snapshots[t] == Passes(s, n, t + 1).dist
    {
      var after := Round(dist, next, k, s);
      snapshots := snapshots + [after];
      k := k + 1;
    }
    MirrorsState(dist, next, Passes(s, n, n));
    SnapshotsAre(D, n, snapshots);
  }

  lemma SnapshotsAre(D: Mat, n: nat, snaps: seq<Mat>)
    requires Square(D, n) && |snaps| == n
    requires forall t :: 0 <= t < n ==> snaps[t] == Passes(Start(D, n), n, t + 1).dist
    ensures snaps == Snapshots(D, n)
  {
  }

  /** One round of the outer loop, and the matrix it leaves. */
  method Round(dist: array2<Dist>, next: array2<Option<nat>>, k: nat, ghost s: State) returns (after: Mat)
    requires Shaped(s, dist.Length0) && k < dist.Length0 && Mirrors(dist, next, Passes(s, dist.Length0, k))
    modifies dist, next
    ensures Mirrors(dist, next, Passes(s, dist.Length0, k + 1))
    ensures after == Passes(s, dist.Length0, k + 1).dist
  {
    Relax(dist, next, k, Passes(s, dist.Length0, k));
    MirrorsState(dist, next, Passes(s, dist.Length0, k + 1));
    after := Contents(dist);
  }

  // ---------------------------------------------------------------------------
  // Route reconstruction

  /** The outcome of `reconstruirRuta`. `Crashes`: the walk met a null or an index
      with no row, where the source throws a TypeError. `Loops`: the walk has visited
      n nodes without reaching j, so it repeats a node and, being determined by the
      current node alone, never ends. */
  datatype Route = NoRoute | Found(names: seq<string>) | Crashes | Loops

  function NamesAlong(nombres: seq<string>, walk: seq<nat>): (r: seq<string>)
    requires forall t :: 0 <= t < |walk| ==> walk[t] < |nombres|
    ensures |r| == |walk| && forall t :: 0 <= t < |walk| ==> r[t] == nombres[walk[t]]
  {
    seq(|walk|, t requires 0 <= t < |walk| => nombres[walk[t]])
  }

  /** Following `next[.][j]` from i stands on j within n nodes. */
  ghost predicate RouteEnds(N: Succ, n: nat, i: nat, j: nat)
    requires Square(N, n) && j < n
  {
    exists p :: IsSuccWalk(N, n, j, p) && p[0] == i && p[|p| - 1] == j && |p| <= n
  }

  /** Successor walks are decided by their first node: two that start together agree
      wherever both are defined. */
  lemma {:induction false} SuccWalksAgree(N: Succ, n: nat, j: nat, p: seq<nat>, q: seq<nat>, t: nat)
    requires Square(N, n) && j < n && IsSuccWalk(N, n, j, p) && IsSuccWalk(N, n, j, q) && p[0] == q[0]
    requires t < |p| && t < |q|
    ensures p[t] == q[t]
    ensures t + 1 < |p| ==> N[q[t]][j] == Some(p[t + 1]) && p[t + 1] < n
  {
    if t > 0 {
      SuccWalksAgree(N, n, j, p, q, t - 1);
    }
  }

  /** A successor walk that has not reached j and either has n nodes or cannot be
      extended: no walk from its start reaches j within n nodes. */
  lemma StuckWalk(N: Succ, n: nat, j: nat, w: seq<nat>)
    requires Square(N, n) && j < n && IsSuccWalk(N, n, j, w) && w[|w| - 1] != j
    requires |w| >= n || N[w[|w| - 1]][j].None? || N[w[|w| - 1]][j].value >= n
    ensures !RouteEnds(N, n, w[0], j)
  {
    forall p | IsSuccWalk(N, n, j, p) && p[0] == w[0] && |p| <= n
      ensures p[|p| - 1] != j
    {
      if |p| <= |w| {
        SuccWalksAgree(N, n, j, p, w, |p| - 1);
      } else if |w| >= n {
        assert false;
      } else {
        SuccWalksAgree(N, n, j, p, w, |w| - 1);
        assert false;
      }
    }
  }

  /** Follows `next[.][j]` from i, collecting names, until it stands on j. */
  method ReconstructRoute(i: nat, j: nat, next: Succ, nombres: seq<string>) returns (r: Route, ghost walk: seq<nat>)
    requires Square(next, |nombres|) && i < |nombres| && j < |nombres|
    ensures r.NoRoute? <==> next[i][j].None?
    ensures |walk| <= |nombres|
    ensures !r.NoRoute? ==> IsSuccWalk(next, |nombres|, j, walk) && walk[0] == i
    ensures r.Found? ==> walk[|walk| - 1] == j && r.names == NamesAlong(nombres, walk)
    ensures r.Crashes? ==>
      var last := walk[|walk| - 1];
      last != j && (next[last][j].None? || next[last][j].value >= |nombres|)
    ensures r.Loops? ==>
      && |walk| == |nombres| && walk[|walk| - 1] != j
      && exists a, b :: 0 <= a < b < |walk| && walk[a] == walk[b]
  {
    var n := |nombres|;
    if next[i][j].None? {
      return NoRoute, [];
    }
    var ruta := [nombres[i]];
    var cur := i;
    var visited := 1;
    walk := [i];
    while cur != j
      invariant 1 <= |walk| <= n && visited == |walk|
      invariant IsSuccWalk(next, n, j, walk) && walk[0] == i && walk[|walk| - 1] == cur
      invariant ruta == NamesAlong(nombres, walk)
      decreases n - |walk|
    {
      if visited == n {
        Counting.Repeats(walk, n, j);
        return Loops, walk;
      }
      var m := next[cur][j];
      if m.None? || m.value >= n {
        return Crashes, walk;
      }
      cur := m.value;
      walk := walk + [cur];
      visited := visited + 1;
      ruta := ruta + [nombres[cur]];
    }
    r := Found(ruta);
  }

  /** Every off-diagonal entry that is an edge weighs more than 0. */
  predicate PositiveOffDiagonal(D: Mat, n: nat)
    requires Square(D, n)
  {
    forall a, b :: 0 <= a < n && 0 <= b < n && a != b && D[a][b].Fin? ==> D[a][b].v > 0
  }

  /** With positive weights, the distance to j strictly falls along a successor walk
      that starts at a finite entry, so such a walk never repeats a node: on the
      run's table reconstruction cannot end in `Loops`, and by `SuccWalkStaysFinite`
      not in `Crashes` either. */
  lemma {:induction false} SuccWalkDistinct(D: Mat, n: nat, j: nat, p: seq<nat>)
    requires Square(D, n) && AllNonNeg(D) && ZeroDiagonal(D, n) && PositiveOffDiagonal(D, n) && j < n
    requires IsSuccWalk(Run(D, n).next, n, j, p) && Run(D, n).dist[p[0]][j].Fin?
    ensures Counting.Distinct(p)
    ensures forall t :: 0 < t < |p| ==>
      Run(D, n).dist[p[t]][j].Fin? && Run(D, n).dist[p[t]][j].v < Run(D, n).dist[p[0]][j].v
    decreases |p|
  {
    var F := Run(D, n);
    if |p| > 1 {
      assert F.next[p[0]][j] == Some(p[1]);
      SuccessorStep(D, n, p[0], j);
      var q := p[1..];
      assert IsSuccWalk(F.next, n, j, q);
      SuccWalkDistinct(D, n, j, q);
      forall t | 0 < t < |p|
        ensures F.dist[p[t]][j].Fin? && F.dist[p[t]][j].v < F.dist[p[0]][j].v
      {
        if t > 1 {
          assert p[t] == q[t - 1];
        }
      }
    }
  }

  /** With positive weights a successor walk from a finite entry can be followed
      on until it stands on j, within n nodes. */
  lemma {:induction false} WalkReaches(D: Mat, n: nat, j: nat, p: seq<nat>) returns (q: seq<nat>)
    requires Square(D, n) && AllNonNeg(D) && ZeroDiagonal(D, n) && PositiveOffDiagonal(D, n) && j < n
    requires IsSuccWalk(Run(D, n).next, n, j, p) && Run(D, n).dist[p[0]][j].Fin?
    ensures IsSuccWalk(Run(D, n).next, n, j, q) && q[0] == p[0] && q[|q| - 1] == j && |q| <= n
    decreases n - |p|
  {
    var N: Succ := Run(D, n).next;
    SuccWalkDistinct(D, n, j, p);
    Counting.DistinctBound(p, n);
    var last := p[|p| - 1];
    if last == j {
      return p;
    }
    SuccWalkStaysFinite(D, n, j, p);
    var p' := p + [N[last][j].value];
    assert IsSuccWalk(N, n, j, p');
    SuccWalkDistinct(D, n, j, p');
    Counting.DistinctBound(p', n);
    q := WalkReaches(D, n, j, p');
  }

  /** With positive weights every route the result list asks for ends: listing the
      routes of a run never throws and never hangs. */
  lemma PositiveListingEnds(D: Mat, n: nat)
    requires Square(D, n) && AllNonNeg(D) && ZeroDiagonal(D, n) && PositiveOffDiagonal(D, n)
    ensures ListingEnds(Run(D, n).dist, Run(D, n).next, n)
  {
    var F := Run(D, n);
    forall i, j | 0 <= i < n && 0 <= j < n
      ensures PairEnds(F.dist, F.next, n, i, j)
    {
      if i != j && F.dist[i][j].Fin? {
        var q := WalkReaches(D, n, j, [i]);
      }
    }
  }

  // ---------------------------------------------------------------------------
  // The editable matrix

  /** A cell of the editable matrix: empty (`""`, null or undefined), a number, or
      text as typed together with what `parseFloat` makes of it (None for NaN). */
  datatype Entry = Blank | Number(v: int) | Text(s: string, parsed: Option<int>)

  /** The characters `String.prototype.trim` removes: white space and line
      terminators. */
  predicate IsSpace(c: char)
  {
    || c == '\t' || c == '\n' || c == '\r' || c == '\U{000B}' || c == '\U{000C}'
    || c == ' ' || c == '\U{00A0}' || c == '\U{1680}' || ('\U{2000}' <= c <= '\U{200A}')
    || c == '\U{2028}' || c == '\U{2029}' || c == '\U{202F}' || c == '\U{205F}'
    || c == '\U{3000}' || c == '\U{FEFF}'
  }

  function TrimStart(s: string): (r: string)
    ensures |r| <= |s| && r == s[|s| - |r|..]
    ensures forall t :: 0 <= t < |s| - |r| ==> IsSpace(s[t])
    ensures r != [] ==> !IsSpace(r[0])
  {
    if s != [] && IsSpace(s[0]) then TrimStart(s[1..]) else s
  }

  function TrimEnd(s: string): (r: string)
    ensures |r| <= |s| && r == s[..|r|]
    ensures forall t :: |r| <= t < |s| ==> IsSpace(s[t])
    ensures r != [] ==> !IsSpace(r[|r| - 1])
  {
    if s != [] && IsSpace(s[|s| - 1]) then TrimEnd(s[..|s| - 1]) else s
  }

  /** `s.trim()`. */
  function Trim(s: string): string
  {
    TrimEnd(TrimStart(s))
  }

  /** Trimmed text has a non-space at each end, so trimming it again changes
      nothing. */
  lemma TrimTwice(s: string)
    ensures Trim(s) != [] ==> !IsSpace(Trim(s)[0]) && !IsSpace(Trim(s)[|Trim(s)| - 1])
    ensures Trim(Trim(s)) == Trim(s)
  {
    var x := TrimStart(s);
    var r := TrimEnd(x);
    if r != [] {
      assert r[0] == x[0];
      assert TrimStart(r) == r;
    }
    assert TrimEnd(r) == r;
  }

  /** Trimming removes exactly the spaces around the text: what is left is the
      slice s[a..b], with only spaces before a and from b on. */
  lemma TrimSlices(s: string) returns (a: nat, b: nat)
    ensures a <= b <= |s| && Trim(s) == s[a..b]
    ensures forall t :: 0 <= t < a ==> IsSpace(s[t])
    ensures forall t :: b <= t < |s| ==> IsSpace(s[t])
  {
    var x := TrimStart(s);
    a := |s| - |x|;
    var r := TrimEnd(x);
    b := a + |r|;
    assert s[a..b] == r by {
      assert x == s[a..] && r == x[..|r|];
      assert s[a..b] == s[a..][..|r|];
    }
    SpacesAfter(s, a, |r|);
  }

  /** Spaces at the end of the suffix s[a..] are spaces at the end of s. */
  lemma SpacesAfter(s: string, a: nat, lo: nat)
    requires a <= |s| && forall t :: lo <= t < |s| - a ==> IsSpace(s[a..][t])
    ensures forall t :: a + lo <= t < |s| ==> IsSpace(s[t])
  {
    forall t | a + lo <= t < |s|
      ensures IsSpace(s[t])
    {
      assert s[t] == s[a..][t - a];
    }
  }

  /** `toLowerCase` on the letters A-Z. Any other character that lower-cases to one
      of "i", "n", "f" alone is absent from Unicode, so the comparison with "inf"
      below is unaffected by the rest of the mapping. */
  function LowerAscii(s: string): (r: string)
    ensures |r| == |s|
  {
    seq(|s|, t requires 0 <= t < |s| => if 'A' <= s[t] <= 'Z' then (s[t] as int + 32) as char else s[t])
  }

  /** Text the parser reads as "no edge". */
  predicate IsInfText(s: string)
  {
    var t := Trim(s);
    t == "" || t == "∞" || LowerAscii(t) == "inf"
  }

  /** The distance an off-diagonal cell stands for. */
  function ParseCell(raw: Entry): Dist
  {
    match raw
    case Blank => Inf
    case Number(v) => Fin(v)
    case Text(s, parsed) => if IsInfText(s) || parsed.None? then Inf else Fin(parsed.value)
  }

  /** `matriz[i][j]`, undefined (read as empty) past the end of a row. */
  function CellAt(matriz: seq<seq<Entry>>, i: nat, j: nat): Entry
  {
    if i < |matriz| && j < |matriz[i]| then matriz[i][j] else Blank
  }

  /** The distance matrix read from the editable one: 0 on the diagonal whatever is
      written there, ParseCell elsewhere. */
  function Parsed(matriz: seq<seq<Entry>>, n: nat): (D: Mat)
    ensures Square(D, n)
  {
    seq(n, i requires 0 <= i < n => seq(n, j requires 0 <= j < n =>
      if i == j then Fin(0) else ParseCell(CellAt(matriz, i, j))))
  }

  /** The reading rules cell by cell: diagonal 0; empty cells, "∞", "inf" in any
      case, and text that is not a number are no edge; a number is its value. */
  lemma ParseRules(matriz: seq<seq<Entry>>, n: nat, i: nat, j: nat)
    requires i < n && j < n
    ensures i == j ==> Parsed(matriz, n)[i][j] == Fin(0)
    ensures i != j ==> (Parsed(matriz, n)[i][j].Inf? <==>
      match CellAt(matriz, i, j)
      case Blank => true
      case Number(_) => false
      case Text(s, parsed) => IsInfText(s) || parsed.None?)
    ensures i != j && CellAt(matriz, i, j).Number? ==> Parsed(matriz, n)[i][j] == Fin(CellAt(matriz, i, j).v)
  {
  }

  /** Reads the editable matrix into an n-by-n buffer. */
  method ReadMatrix(matriz: seq<seq<Entry>>, n: nat) returns (dist: array2<Dist>)
    ensures fresh(dist) && dist.Length0 == n && dist.Length1 == n
    ensures Contents(dist) == Parsed(matriz, n)
  {
    dist := new Dist[n, n]((_, _) => Inf);
    var i := 0;
    while i < n
      invariant 0 <= i <= n
      invariant forall a, b :: 0 <= a < n && 0 <= b < n ==> dist[a, b] == if a == b && a < i then Fin(0) else Inf
    {
      dist[i, i] := Fin(0);
      i := i + 1;
    }
    i := 0;
    while i < n
      invariant 0 <= i <= n
      invariant forall a, b :: 0 <= a < n && 0 <= b < n ==>
        dist[a, b] == if a < i then Parsed(matriz, n)[a][b] else if a == b then Fin(0) else Inf
    {
      ReadRow(dist, matriz, n, i);
      i := i + 1;
    }
    SquareExt(Contents(dist), Parsed(matriz, n), n);
  }

  /** Reads row i of the editable matrix into the buffer, whose row i holds 0 on
      the diagonal and Infinity elsewhere. */
  method ReadRow(dist: array2<Dist>, matriz: seq<seq<Entry>>, n: nat, i: nat)
    requires dist.Length0 == n && dist.Length1 == n && i < n
    requires forall b :: 0 <= b < n ==> dist[i, b] == if b == i then Fin(0) else Inf
    modifies dist
    ensures forall b :: 0 <= b < n ==> dist[i, b] == Parsed(matriz, n)[i][b]
    ensures forall a, b :: 0 <= a < n && 0 <= b < n && a != i ==> dist[a, b] == old(dist[a, b])
  {
    var j := 0;
    while j < n
      invariant 0 <= j <= n
      invariant forall b :: 0 <= b < n ==> dist[i, b] == if b < j then Parsed(matriz, n)[i][b] else if b == i then Fin(0) else Inf
      invariant forall a, b :: 0 <= a < n && 0 <= b < n && a != i ==> dist[a, b] == old(dist[a, b])
    {
      var raw := CellAt(matriz, i, j);
      if i == j {
        dist[i, j] := Fin(0);
      } else if raw.Blank? {
      } else if raw.Text? && IsInfText(raw.s) {
      } else {
        var num := if raw.Number? then Some(raw.v) else raw.parsed;
        if num.Some? {
          dist[i, j] := Fin(num.value);
        }
      }
      j := j + 1;
    }
  }

  /** The editable form of a distance matrix: "no path" becomes an empty cell. */
  function ToCells(D: Mat, n: nat): (M: seq<seq<Entry>>)
    requires Square(D, n)
  {
    seq(n, i requires 0 <= i < n => seq(n, j requires 0 <= j < n =>
      if D[i][j].Inf? then Blank else Number(D[i][j].v)))
  }

  /** Reading back the editable form gives the matrix exactly when its diagonal is
      0 (the reader forces 0 there). */
  lemma CellsRoundTrip(D: Mat, n: nat)
    requires Square(D, n)
    ensures Parsed(ToCells(D, n), n) == D <==> ZeroDiagonal(D, n)
  {
    var P := Parsed(ToCells(D, n), n);
    if ZeroDiagonal(D, n) {
      SquareExt(P, D, n);
    } else {
      var i :| 0 <= i < n && D[i][i] != Fin(0);
      assert P[i][i] != D[i][i];
    }
  }

  // ---------------------------------------------------------------------------
  // Node names

  function Digit(d: nat): char
    requires d < 10
  {
    "0123456789"[d]
  }

  /** The decimal numeral of k. */
  function Decimal(k: nat): (r: string)
    ensures |r| >= 1 && (k >= 10 ==> |r| >= 2)
    decreases k
  {
    if k < 10 then [Digit(k)] else Decimal(k / 10) + [Digit(k % 10)]
  }

  lemma {:induction false} DecimalInjective(a: nat, b: nat)
    requires Decimal(a) == Decimal(b)
    ensures a == b
    decreases a
  {
    if a >= 10 && b >= 10 {
      var x, y := Decimal(a), Decimal(b);
      assert x[|x| - 1] == Digit(a % 10) && y[|y| - 1] == Digit(b % 10);
      assert x[..|x| - 1] == Decimal(a / 10) && y[..|y| - 1] == Decimal(b / 10);
      DecimalInjective(a / 10, b / 10);
    }
  }

  /** "N1", "N2", ...: the name of node idx when none is given. */
  function DefaultName(idx: nat): string
  {
    "N" + Decimal(idx + 1)
  }

  /** Default names are never blank and never repeat. */
  lemma DefaultNamesDistinct(a: nat, b: nat)
    ensures Trim(DefaultName(a)) == DefaultName(a) != ""
    ensures a != b ==> DefaultName(a) != DefaultName(b)
  {
    var s := DefaultName(a);
    assert !IsSpace(s[0]);
    assert !IsSpace(s[|s| - 1]);
    if a != b && DefaultName(a) == DefaultName(b) {
      assert Decimal(a + 1) == DefaultName(a)[1..];
      DecimalInjective(a + 1, b + 1);
    }
  }

  /** The names the matrix run uses: each given name trimmed, or the default when it
      is blank. */
  function EditedNames(nombres: seq<string>): (r: seq<string>)
    ensures |r| == |nombres|
  {
    seq(|nombres|, idx requires 0 <= idx < |nombres| =>
      if Trim(nombres[idx]) != "" then Trim(nombres[idx]) else DefaultName(idx))
  }

  /** Every name of a run is non-blank and already trimmed; a given name is kept,
      trimmed, unless it is blank. */
  lemma EditedNamesTrimmed(nombres: seq<string>, idx: nat)
    requires idx < |nombres|
    ensures var r := EditedNames(nombres)[idx];
      r != "" && Trim(r) == r
      && (Trim(nombres[idx]) != "" ==> r == Trim(nombres[idx]))
      && (Trim(nombres[idx]) == "" ==> r == DefaultName(idx))
  {
    TrimTwice(nombres[idx]);
    DefaultNamesDistinct(idx, idx);
  }

  // ---------------------------------------------------------------------------
  // The matrix of the drawn graph

  /** One edge entered into the matrix: the cheaper of the current entry and the
      weight, in its direction and, when bidirectional, in the other one too. */
  function WithEdge(M: Mat, n: nat, e: Edge): (R: Mat)
    requires Square(M, n) && e.from < n && e.to < n
    ensures Square(R, n)
  {
    var M1 := Set(M, e.from, e.to, Min(M[e.from][e.to], Fin(e.peso)));
    if e.direccion == Both then Set(M1, e.to, e.from, Min(M1[e.to][e.from], Fin(e.peso))) else M1
  }

  /** The matrix `construirMatrizDesdeGrafo` builds from the first |E| edges. */
  function GraphMatrix(n: nat, E: seq<Edge>): (M: Mat)
    requires EdgesWithin(E, n)
    ensures Square(M, n)
  {
    if E == [] then Initial(n)
    else
      assert EdgesWithin(E[..|E| - 1], n);
      WithEdge(GraphMatrix(n, E[..|E| - 1]), n, E[|E| - 1])
  }

  lemma WithEdgeCell(M: Mat, n: nat, e: Edge, i: nat, j: nat)
    requires Square(M, n) && e.from < n && e.to < n && i < n && j < n
    ensures WithEdge(M, n, e)[i][j] == if Links(e, i, j) then Min(M[i][j], Fin(e.peso)) else M[i][j]
  {
  }

  /** Entry (i, j) is the cheapest of the edges that lead from i to j, or the entry
      of the empty graph (0 on the diagonal, no path elsewhere) when that is
      cheaper or no edge leads there. */
  lemma {:induction false} GraphMatrixCell(n: nat, E: seq<Edge>, i: nat, j: nat)
    requires EdgesWithin(E, n) && i < n && j < n
    ensures Le(GraphMatrix(n, E)[i][j], Initial(n)[i][j])
    ensures forall t :: 0 <= t < |E| && Links(E[t], i, j) ==> Le(GraphMatrix(n, E)[i][j], Fin(E[t].peso))
    ensures || GraphMatrix(n, E)[i][j] == Initial(n)[i][j]
            || exists t :: 0 <= t < |E| && Links(E[t], i, j) && GraphMatrix(n, E)[i][j] == Fin(E[t].peso)
    decreases |E|
  {
    if E != [] {
      var P := E[..|E| - 1];
      var e := E[|E| - 1];
      assert EdgesWithin(P, n);
      GraphMatrixCell(n, P, i, j);
      WithEdgeCell(GraphMatrix(n, P), n, e, i, j);
      forall t | 0 <= t < |E| && Links(E[t], i, j)
        ensures Le(GraphMatrix(n, E)[i][j], Fin(E[t].peso))
      {
        if t < |E| - 1 {
          assert E[t] == P[t];
        }
      }
      if GraphMatrix(n, E)[i][j] != Initial(n)[i][j] {
        if Links(e, i, j) && GraphMatrix(n, E)[i][j] == Fin(e.peso) {
          assert E[|E| - 1] == e;
        } else {
          var t :| 0 <= t < |P| && Links(P[t], i, j) && GraphMatrix(n, P)[i][j] == Fin(P[t].peso);
          assert E[t] == P[t];
        }
      }
    }
  }

  /** Without self-loops the diagonal stays 0, so the matrix survives the trip
      through the editable form (`generarDesdeCanvas`) unchanged. */
  lemma CanvasMatrixRoundTrip(n: nat, E: seq<Edge>)
    requires EdgesWithin(E, n) && NoSelfLoops(E)
    ensures ZeroDiagonal(GraphMatrix(n, E), n)
    ensures Parsed(ToCells(GraphMatrix(n, E), n), n) == GraphMatrix(n, E)
  {
    forall i | 0 <= i < n
      ensures GraphMatrix(n, E)[i][i] == Fin(0)
    {
      GraphMatrixCell(n, E, i, i);
    }
    CellsRoundTrip(GraphMatrix(n, E), n);
  }

  /** With non-negative weights every entry is non-negative. */
  lemma GraphMatrixNonNeg(n: nat, E: seq<Edge>)
    requires EdgesWithin(E, n) && NonNegWeights(E)
    ensures AllNonNeg(GraphMatrix(n, E))
  {
    forall i, j | 0 <= i < n && 0 <= j < n
      ensures NonNeg(GraphMatrix(n, E)[i][j])
    {
      GraphMatrixCell(n, E, i, j);
    }
  }

  /** The buffer is n-by-n and holds M. */
  ghost predicate Holds(dist: array2<Dist>, M: Mat, n: nat)
    reads dist
  {
    dist.Length0 == n && dist.Length1 == n && Square(M, n)
    && forall a, b :: 0 <= a < n && 0 <= b < n ==> dist[a, b] == M[a][b]
  }

  method EnterEdge(dist: array2<Dist>, e: Edge, ghost M: Mat, ghost n: nat)
    requires Holds(dist, M, n) && e.from < n && e.to < n
    modifies dist
    ensures Holds(dist, WithEdge(M, n, e), n)
  {
    if e.direccion == Forward || e.direccion == Both {
      dist[e.from, e.to] := Min(dist[e.from, e.to], Fin(e.peso));
    }
    if e.direccion == Both {
      dist[e.to, e.from] := Min(dist[e.to, e.from], Fin(e.peso));
    }
  }

  /** `construirMatrizDesdeGrafo`: the node names and the matrix of the graph. */
  method MatrixFromGraph(nodos: seq<Node>, aristas: seq<Edge>) returns (nombres: seq<string>, dist: array2<Dist>)
    requires EdgesWithin(aristas, |nodos|)
    ensures fresh(dist) && dist.Length0 == |nodos| && dist.Length1 == |nodos|
    ensures |nombres| == |nodos| && forall t :: 0 <= t < |nodos| ==> nombres[t] == nodos[t].nombre
    ensures Contents(dist) == GraphMatrix(|nodos|, aristas)
  {
    var n := |nodos|;
    nombres := seq(n, t requires 0 <= t < n => nodos[t].nombre);
    dist := new Dist[n, n]((_, _) => Inf);
    var i := 0;
    while i < n
      invariant 0 <= i <= n
      invariant forall a, b :: 0 <= a < n && 0 <= b < n ==> dist[a, b] == if a == b && a < i then Fin(0) else Inf
    {
      dist[i, i] := Fin(0);
      i := i + 1;
    }
    assert aristas[..0] == [];
    var t := 0;
    while t < |aristas|
      invariant 0 <= t <= |aristas|
      invariant EdgesWithin(aristas[..t], n)
      invariant Holds(dist, GraphMatrix(n, aristas[..t]), n)
    {
      EnterEdge(dist, aristas[t], GraphMatrix(n, aristas[..t]), n);
      assert aristas[..t + 1][..t] == aristas[..t];
      t := t + 1;
    }
    assert aristas[..|aristas|] == aristas;
    SquareExt(Contents(dist), GraphMatrix(n, aristas), n);
  }

  // ---------------------------------------------------------------------------
  // The result list

  /** One pair of the result list ends: it is skipped (i == j), reads "no path", has
      an empty route, or its route reconstruction stands on j. */
  ghost predicate PairEnds(D: Mat, N: Succ, n: nat, i: nat, j: nat)
    requires Square(D, n) && Square(N, n) && i < n && j < n
  {
    i == j || D[i][j].Inf? || N[i][j].None? || RouteEnds(N, n, i, j)
  }

  /** Every pair of the result list ends. */
  ghost predicate ListingEnds(D: Mat, N: Succ, n: nat)
    requires Square(D, n) && Square(N, n)
  {
    forall i, j :: 0 <= i < n && 0 <= j < n ==> PairEnds(D, N, n, i, j)
  }

  /** (i, j) is where the result list stops: the first pair, in row order, whose
      route reconstruction does not end. */
  ghost predicate FirstStuck(D: Mat, N: Succ, n: nat, i: nat, j: nat)
    requires Square(D, n) && Square(N, n)
  {
    && i < n && j < n && !PairEnds(D, N, n, i, j)
    && forall a, b :: 0 <= a < n && 0 <= b < n && (a < i || (a == i && b < j)) ==> PairEnds(D, N, n, a, b)
  }

  /** The result-list loops: in row order, the route of every pair of distinct nodes
      at finite distance. Stops at the first reconstruction that throws or never
      ends. Only whether each one ends is modelled; the text of the list is not, so
      the routes are followed under blank names. */
  method ListRoutes(D: Mat, next: Succ, n: nat) returns (stuck: Option<(nat, nat, Route)>)
    requires Square(D, n) && Square(next, n)
    ensures stuck.None? <==> ListingEnds(D, next, n)
    ensures stuck.Some? ==>
      FirstStuck(D, next, n, stuck.value.0, stuck.value.1) && (stuck.value.2.Crashes? || stuck.value.2.Loops?)
  {
    var blank: seq<string> := seq(n, _ => "");
    var i := 0;
    while i < n
      invariant 0 <= i <= n
      invariant forall a, b :: 0 <= a < i && 0 <= b < n ==> PairEnds(D, next, n, a, b)
    {
      var j := 0;
      while j < n
        invariant 0 <= j <= n
        invariant forall a, b :: 0 <= a < i && 0 <= b < n ==> PairEnds(D, next, n, a, b)
        invariant forall b :: 0 <= b < j ==> PairEnds(D, next, n, i, b)
      {
        if i != j && D[i][j].Fin? {
          var route;
          ghost var walk;
          route, walk := ReconstructRoute(i, j, next, blank);
          if route.Crashes? || route.Loops? {
            StuckWalk(next, n, j, walk);
            assert !PairEnds(D, next, n, i, j);
            return Some((i, j, route));
          }
          if route.Found? {
            assert IsSuccWalk(next, n, j, walk) && walk[0] == i && walk[|walk| - 1] == j;
          }
        }
        j := j + 1;
      }
      i := i + 1;
    }
    return None;
  }

  // ---------------------------------------------------------------------------
  // The two ways of running the algorithm

  /** What a run leaves behind (`ultimoFloyd`, plus the per-round matrices). */
  datatype FloydResult = FloydResult(nombres: seq<string>, dist: Mat, next: Succ, snapshots: seq<Mat>)

  function ResultOf(nombres: seq<string>, D: Mat, n: nat): FloydResult
    requires Square(D, n)
  {
    FloydResult(nombres, Run(D, n).dist, Run(D, n).next, Snapshots(D, n))
  }

  /** What pressing "run" leads to. `Stored`: the result list is complete and the run
      becomes `ultimoFloyd`. `Halted`: the per-round tables were already assigned,
      but listing the routes stopped at pair (i, j), whose reconstruction throws
      (`Crashes`) or never ends (`Loops`), so neither the list nor `ultimoFloyd` is
      stored. */
  datatype RunOutcome = Refused | Stored(result: FloydResult) | Halted(snapshots: seq<Mat>, i: nat, j: nat, how: Route)

  /** The part both run handlers share once they have a matrix: the run, its tables,
      then the result list, and only after it the stored result. */
  method RunAndList(nombres: seq<string>, dist: array2<Dist>) returns (r: RunOutcome)
    requires dist.Length0 == dist.Length1
    modifies dist
    ensures var n := dist.Length0; var F := ResultOf(nombres, old(Contents(dist)), n);
      && (r.Stored? || r.Halted?)
      && (r.Stored? <==> ListingEnds(F.dist, F.next, n))
      && (r.Stored? ==> r.result == F)
      && (r.Halted? ==>
            && r.snapshots == F.snapshots && FirstStuck(F.dist, F.next, n, r.i, r.j)
            && (r.how.Crashes? || r.how.Loops?))
  {
    var n := dist.Length0;
    var next, snapshots := FloydWarshall(dist);
    var stuck := ListRoutes(Contents(dist), Contents(next), n);
    if stuck.Some? {
      return Halted(snapshots, stuck.value.0, stuck.value.1, stuck.value.2);
    }
    r := Stored(FloydResult(nombres, Contents(dist), Contents(next), snapshots));
  }

  /** `ejecutarFloydDesdeMatriz`: refused unless the matrix has the stated number of
      rows; otherwise runs on the matrix read from the cells under the edited names. */
  method RunFromMatrix(numNodos: int, matriz: seq<seq<Entry>>, nombres: seq<string>) returns (r: RunOutcome)
    ensures r.Refused? <==> numNodos <= 0 || |matriz| != numNodos
    ensures !r.Refused? ==>
      var n := numNodos as nat; var F := ResultOf(EditedNames(nombres), Parsed(matriz, n), n);
      && (r.Stored? <==> ListingEnds(F.dist, F.next, n))
      && (r.Stored? ==> r.result == F)
      && (r.Halted? ==>
            && r.snapshots == F.snapshots && FirstStuck(F.dist, F.next, n, r.i, r.j)
            && (r.how.Crashes? || r.how.Loops?))
  {
    if numNodos <= 0 || |matriz| != numNodos {
      return Refused;
    }
    var n := numNodos as nat;
    var names := EditedNames(nombres);
    var dist := ReadMatrix(matriz, n);
    r := RunAndList(names, dist);
  }

  /** `ejecutarFloydCanvas`: refused on an empty canvas; otherwise runs on the
      matrix of the drawn graph. */
  method RunFromCanvas(nodos: seq<Node>, aristas: seq<Edge>) returns (r: RunOutcome)
    requires EdgesWithin(aristas, |nodos|)
    ensures r.Refused? <==> nodos == []
    ensures !r.Refused? ==>
      var n := |nodos|;
      var F := ResultOf(seq(n, t requires 0 <= t < n => nodos[t].nombre), GraphMatrix(n, aristas), n);
      && (r.Stored? <==> ListingEnds(F.dist, F.next, n))
      && (r.Stored? ==> r.result == F)
      && (r.Halted? ==>
            && r.snapshots == F.snapshots && FirstStuck(F.dist, F.next, n, r.i, r.j)
            && (r.how.Crashes? || r.how.Loops?))
  {
    if nodos == [] {
      return Refused;
    }
    var nombres, dist := MatrixFromGraph(nodos, aristas);
    r := RunAndList(nombres, dist);
  }

  /** What the matrix editor shows: the node count, the names and the cells. */
  datatype Editor = Editor(numNodos: nat, nombres: seq<string>, matriz: seq<seq<Entry>>)

  /** `generarMatriz`: n default names and a matrix with 0 on the diagonal and empty
      cells elsewhere; refused when n is not positive. */
  function GenerateMatrix(numNodos: int): (r: Option<Editor>)
    ensures r.None? <==> numNodos <= 0
  {
    if numNodos <= 0 then None
    else
      var n := numNodos as nat;
      Some(Editor(n, seq(n, idx requires 0 <= idx => DefaultName(idx)),
                  seq(n, i => seq(n, j => if i == j then Number(0) else Blank))))
  }

  /** A generated matrix reads as the graph without edges, under n distinct names. */
  lemma GeneratedMatrixIsEmptyGraph(numNodos: int)
    requires numNodos > 0
    ensures var e := GenerateMatrix(numNodos).value;
      && |e.matriz| == numNodos && |e.nombres| == numNodos
      && Parsed(e.matriz, numNodos) == Initial(numNodos)
      && forall a, b :: 0 <= a < b < numNodos ==> e.nombres[a] != e.nombres[b]
  {
    var e := GenerateMatrix(numNodos).value;
    SquareExt(Parsed(e.matriz, numNodos), Initial(numNodos), numNodos);
    forall a, b | 0 <= a < b < numNodos
      ensures e.nombres[a] != e.nombres[b]
    {
      DefaultNamesDistinct(a, b);
    }
  }

  /** The names `generarDesdeCanvas` copies: a node's own name, or its default when
      empty. */
  function CanvasNames(nodos: seq<Node>): (r: seq<string>)
    ensures |r| == |nodos|
  {
    seq(|nodos|, t requires 0 <= t < |nodos| => if nodos[t].nombre != "" then nodos[t].nombre else DefaultName(t))
  }

  /** `generarDesdeCanvas`: loads the drawn graph into the matrix editor, "no path"
      as an empty cell; refused on an empty canvas. */
  method GenerateFromCanvas(nodos: seq<Node>, aristas: seq<Edge>) returns (r: Option<Editor>)
    requires EdgesWithin(aristas, |nodos|)
    ensures r.None? <==> nodos == []
    ensures r.Some? ==> r.value == Editor(|nodos|, CanvasNames(nodos), ToCells(GraphMatrix(|nodos|, aristas), |nodos|))
  {
    if nodos == [] {
      return None;
    }
    var n := |nodos|;
    var nombres := CanvasNames(nodos);
    var _, dist := MatrixFromGraph(nodos, aristas);
    r := Some(Editor(n, nombres, ToCells(Contents(dist), n)));
  }

  /** Loading a graph without self-loops into the matrix editor and running there
      computes the same distances, successors and rounds as running on the canvas. */
  lemma MatrixRunAgreesWithCanvasRun(nodos: seq<Node>, aristas: seq<Edge>)
    requires EdgesWithin(aristas, |nodos|) && NoSelfLoops(aristas) && nodos != []
    ensures var n := |nodos|;
      var D := Parsed(ToCells(GraphMatrix(n, aristas), n), n);
      ResultOf(EditedNames(CanvasNames(nodos)), D, n).(nombres := []) ==
      ResultOf(CanvasNames(nodos), GraphMatrix(n, aristas), n).(nombres := [])
  {
    CanvasMatrixRoundTrip(|nodos|, aristas);
  }

  // ---------------------------------------------------------------------------
  // Highlighting a route on the canvas

  /** Every node carries the name the editor gives it on creation, and there are
      few enough nodes for those names to be distinct. */
  predicate Canonical(nodos: seq<Node>)
  {
    |nodos| < 0xD800 - 65 && forall t :: 0 <= t < |nodos| ==> nodos[t].nombre == NodeName(t)
  }

  function NamesOf(nodos: seq<Node>): (r: seq<string>)
    ensures |r| == |nodos|
  {
    seq(|nodos|, t requires 0 <= t < |nodos| => nodos[t].nombre)
  }

  /** `nameToIndex`: each name to the position of the last node carrying it. */
  method NameIndex(nodos: seq<Node>) returns (m: map<string, nat>)
    ensures forall name :: name in m <==> exists t :: 0 <= t < |nodos| && nodos[t].nombre == name
    ensures forall name :: name in m ==>
      && m[name] < |nodos| && nodos[m[name]].nombre == name
      && forall t :: m[name] < t < |nodos| ==> nodos[t].nombre != name
  {
    m := map[];
    var i := 0;
    while i < |nodos|
      invariant 0 <= i <= |nodos|
      invariant forall name :: name in m <==> exists t :: 0 <= t < i && nodos[t].nombre == name
      invariant forall name :: name in m ==>
        && m[name] < i && nodos[m[name]].nombre == name
        && forall t :: m[name] < t < i ==> nodos[t].nombre != name
    {
      m := m[nodos[i].nombre := i];
      i := i + 1;
    }
  }

  /** Looks every name up, giving up at the first one that is missing. */
  method MapNames(names: seq<string>, m: map<string, nat>) returns (r: Option<seq<nat>>)
    ensures r.Some? <==> forall t :: 0 <= t < |names| ==> names[t] in m
    ensures r.Some? ==> |r.value| == |names| && forall t :: 0 <= t < |names| ==> r.value[t] == m[names[t]]
  {
    var indices := [];
    var i := 0;
    while i < |names|
      invariant 0 <= i <= |names|
      invariant forall t :: 0 <= t < i ==> names[t] in m
      invariant |indices| == i && forall t :: 0 <= t < i ==> indices[t] == m[names[t]]
    {
      if names[i] !in m {
        return None;
      }
      indices := indices + [m[names[i]]];
      i := i + 1;
    }
    r := Some(indices);
  }

  /** On canonically named nodes the index finds every node under its own name. */
  lemma NameIndexCanonical(nodos: seq<Node>, m: map<string, nat>, w: nat)
    requires Canonical(nodos) && w < |nodos|
    requires forall name :: name in m <==> exists t :: 0 <= t < |nodos| && nodos[t].nombre == name
    requires forall name :: name in m ==> m[name] < |nodos| && nodos[m[name]].nombre == name
    ensures NodeName(w) in m && m[NodeName(w)] == w
  {
    assert nodos[w].nombre == NodeName(w);
    var u := m[NodeName(w)];
    if u != w {
      NodeNamesDistinct(u, w);
    }
  }

  datatype Highlight = NotRun | SameNode | NoPath | Crashed | Diverged | Unmapped
                     | Shown(aristas: seq<(nat, nat)>, indices: seq<nat>)

  /** `resaltarRuta`: reconstructs the route from o to d of the last run and finds
      its nodes on the canvas by name. The selected indices come from the canvas,
      so either may lie beyond the last run's nodes; reading `next` there throws. */
  method HighlightRoute(last: Option<FloydResult>, o: nat, d: nat, nodos: seq<Node>) returns (h: Highlight, ghost walk: seq<nat>)
    requires last.Some? ==> Square(last.value.next, |last.value.nombres|)
    ensures h.NotRun? <==> last.None?
    ensures h.SameNode? <==> last.Some? && o == d
    ensures h.NoPath? <==>
      last.Some? && o != d && o < |last.value.nombres| && d < |last.value.nombres| && last.value.next[o][d].None?
    ensures last.Some? && o != d && (o >= |last.value.nombres| || d >= |last.value.nombres|) ==> h.Crashed?
    ensures h.Shown? ==>
      var F := last.value;
      && IsSuccWalk(F.next, |F.nombres|, d, walk) && walk[0] == o && walk[|walk| - 1] == d
      && |h.indices| == |walk|
      && (forall t :: 0 <= t < |walk| ==> h.indices[t] < |nodos| && nodos[h.indices[t]].nombre == F.nombres[walk[t]])
      && |h.aristas| == |walk| - 1
      && (forall t :: 0 <= t < |h.aristas| ==> h.aristas[t] == (h.indices[t], h.indices[t + 1]))
    ensures h.Unmapped? ==>
      var F := last.value;
      && IsSuccWalk(F.next, |F.nombres|, d, walk) && walk[|walk| - 1] == d
      && exists t :: 0 <= t < |walk| && F.nombres[walk[t]] !in NamesOf(nodos)
    ensures Canonical(nodos) && last.Some? && last.value.nombres == NamesOf(nodos) && !h.NoPath? && o != d ==>
      (h.Shown? || h.Crashed? || h.Diverged?) && (h.Shown? ==> h.indices == walk)
  {
    walk := [];
    if last.None? {
      return NotRun, walk;
    }
    var F := last.value;
    if o == d {
      return SameNode, walk;
    }
    if o >= |F.nombres| || d >= |F.nombres| {
      // next[o] is undefined, or next[o][d] is and the walk then reads next[undefined]
      return Crashed, walk;
    }
    var route;
    route, walk := ReconstructRoute(o, d, F.next, F.nombres);
    match route
    case NoRoute => return NoPath, walk;
    case Crashes => return Crashed, walk;
    case Loops => return Diverged, walk;
    case Found(names) =>
      h := LocateOnCanvas(names, nodos, walk);
  }

  /** The part of `resaltarRuta` after reconstruction: the route's names looked up
      on the canvas, and the edges between consecutive nodes. */
  method LocateOnCanvas(names: seq<string>, nodos: seq<Node>, ghost w: seq<nat>) returns (h: Highlight)
    ensures h.Shown? || h.Unmapped?
    ensures h.Shown? ==>
      && |h.indices| == |names|
      && (forall t :: 0 <= t < |names| ==> h.indices[t] < |nodos| && nodos[h.indices[t]].nombre == names[t])
      && |h.aristas| == (if names == [] then 0 else |names| - 1)
      && (forall t :: 0 <= t < |h.aristas| ==> h.aristas[t] == (h.indices[t], h.indices[t + 1]))
    ensures h.Unmapped? <==> exists t :: 0 <= t < |names| && names[t] !in NamesOf(nodos)
    ensures Canonical(nodos) && |w| == |names| && (forall t :: 0 <= t < |w| ==> w[t] < |nodos| && names[t] == NodeName(w[t])) ==>
      h.Shown? && h.indices == w
  {
    var m := NameIndex(nodos);
    forall name
      ensures name in m <==> name in NamesOf(nodos)
    {
      if name in m {
        assert NamesOf(nodos)[m[name]] == name;
      }
      if name in NamesOf(nodos) {
        var t :| 0 <= t < |nodos| && NamesOf(nodos)[t] == name;
        assert nodos[t].nombre == name;
      }
    }
    var indices := MapNames(names, m);
    if indices.None? {
      return Unmapped;
    }
    var pares := PathEdges(indices.value);
    h := Shown(pares, indices.value);
    if Canonical(nodos) && |w| == |names| && (forall t :: 0 <= t < |w| ==> w[t] < |nodos| && names[t] == NodeName(w[t])) {
      forall t | 0 <= t < |w|
        ensures h.indices[t] == w[t]
      {
        NameIndexCanonical(nodos, m, w[t]);
      }
    }
  }
}
