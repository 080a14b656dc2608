/** Dijkstra's algorithm as the Dijkstra editor runs it (`dijkstra/dijkstra.component.ts`,
    `calcularDijkstra`): arrays `dist`, `padre`, `visitado` updated in place, a
    linear scan for the next node, relaxation over the whole edge list, one snapshot
    per examined edge, one log row per settled node, and the path recovered by
    walking `padre` back from the destination. */
module Dijkstra {
  import opened Distance
  import opened Graph

  // ---------------------------------------------------------------------------
  // Routes through the edge list

  /** nodes[0] .. nodes[|es|], where edge es[k] leads from nodes[k] to nodes[k + 1]. */
  ghost predicate IsRoute(E: seq<Edge>, n: nat, nodes: seq<nat>, es: seq<nat>)
  {
    && |nodes| == |es| + 1
    && (forall k :: 0 <= k < |nodes| ==> nodes[k] < n)
    && (forall k :: 0 <= k < |es| ==> es[k] < |E| && Links(E[es[k]], nodes[k], nodes[k + 1]))
  }

  /** The total weight of the edges used. */
  function Cost(E: seq<Edge>, es: seq<nat>): int
    requires forall k :: 0 <= k < |es| ==> es[k] < |E|
  {
    if es == [] then 0 else E[es[0]].peso + Cost(E, es[1..])
  }

  lemma {:induction false} CostSnoc(E: seq<Edge>, es: seq<nat>, t: nat)
    requires (forall k :: 0 <= k < |es| ==> es[k] < |E|) && t < |E|
    ensures forall k :: 0 <= k < |es + [t]| ==> (es + [t])[k] < |E|
    ensures Cost(E, es + [t]) == Cost(E, es) + E[t].peso
    decreases |es|
  {
    if es != [] {
      assert (es + [t])[1..] == es[1..] + [t];
      CostSnoc(E, es[1..], t);
    } else {
      assert ([] + [t])[1..] == [];
    }
  }

  // ---------------------------------------------------------------------------
  // One round of relaxation, as values

  datatype Tables = Tables(dist: seq<Dist>, padre: seq<Option<nat>>)

  /** A copy of the tables taken after an examined edge, with the pair [u, v]. */
  datatype Snapshot = Snapshot(padre: seq<Option<nat>>, dist: seq<Dist>, visitado: seq<bool>, explorada: (nat, nat))

  predicate Sized(s: Tables, n: nat)
  {
    |s.dist| == n && |s.padre| == n
  }

  /** The node edge e is examined for from u: its neighbour, unless it is settled. */
  function Target(vis: seq<bool>, u: nat, e: Edge): (v: Option<nat>)
    requires e.from < |vis| && e.to < |vis|
    ensures v.Some? ==> v.value < |vis| && !vis[v.value] && Links(e, u, v.value)
  {
    var w := Neighbour(e, u);
    if w.Some? && !vis[w.value] then w else None
  }

  /** An edge is skipped only when it leads nowhere from u or to a settled node. */
  lemma TargetNone(vis: seq<bool>, u: nat, e: Edge, b: nat)
    requires e.from < |vis| && e.to < |vis| && Target(vis, u, e).None? && Links(e, u, b)
    ensures b < |vis| && vis[b]
  {
  }

  /** Edge e examined from u: the target's distance lowered, with u as its parent,
      when going through u is strictly shorter. */
  function RelaxOne(s: Tables, vis: seq<bool>, u: nat, e: Edge): (r: Tables)
    requires Sized(s, |vis|) && u < |vis| && e.from < |vis| && e.to < |vis|
    ensures Sized(r, |vis|)
  {
    match Target(vis, u, e)
    case None => s
    case Some(v) =>
      var nueva := Add(s.dist[u], Fin(e.peso));
      if Less(nueva, s.dist[v]) then Tables(s.dist[v := nueva], s.padre[v := Some(u)]) else s
  }

  /** Examining an edge changes nothing when it is skipped; otherwise it lowers only
      the target's distance, only when going through u is strictly shorter, and then
      makes u the target's parent. No distance goes up. */
  lemma RelaxOneEffect(s: Tables, vis: seq<bool>, u: nat, e: Edge)
    requires Sized(s, |vis|) && u < |vis| && e.from < |vis| && e.to < |vis|
    ensures Target(vis, u, e).None? ==> RelaxOne(s, vis, u, e) == s
    ensures Target(vis, u, e).Some? ==>
      var v := Target(vis, u, e).value;
      var r := RelaxOne(s, vis, u, e);
      var nueva := Add(s.dist[u], Fin(e.peso));
      && (Less(nueva, s.dist[v]) ==> r.dist[v] == nueva && r.padre[v] == Some(u))
      && (!Less(nueva, s.dist[v]) ==> r == s)
      && (forall w :: 0 <= w < |vis| && w != v ==> r.dist[w] == s.dist[w] && r.padre[w] == s.padre[w])
    ensures forall w :: 0 <= w < |vis| ==> Le(RelaxOne(s, vis, u, e).dist[w], s.dist[w])
  {
  }

  /** The first t edges examined from u, in order. */
  function RelaxUpTo(s: Tables, vis: seq<bool>, u: nat, E: seq<Edge>, t: nat): (r: Tables)
    requires Sized(s, |vis|) && u < |vis| && EdgesWithin(E, |vis|) && t <= |E|
    ensures Sized(r, |vis|)
  {
    if t == 0 then s else RelaxOne(RelaxUpTo(s, vis, u, E, t - 1), vis, u, E[t - 1])
  }

  /** The snapshots taken while examining the first t edges. */
  function SnapsUpTo(s: Tables, vis: seq<bool>, u: nat, E: seq<Edge>, t: nat): seq<Snapshot>
    requires Sized(s, |vis|) && u < |vis| && EdgesWithin(E, |vis|) && t <= |E|
  {
    if t == 0 then []
    else
      SnapsUpTo(s, vis, u, E, t - 1) +
      match Target(vis, u, E[t - 1])
      case None => []
      case Some(v) =>
        var r := RelaxUpTo(s, vis, u, E, t);
        [Snapshot(r.padre, r.dist, vis, (u, v))]
  }

  /** The edges among the first t that are examined from u. */
  function Examined(vis: seq<bool>, u: nat, E: seq<Edge>, t: nat): set<nat>
    requires EdgesWithin(E, |vis|) && t <= |E|
  {
    set k | 0 <= k < t && Target(vis, u, E[k]).Some?
  }

  lemma ExaminedStep(vis: seq<bool>, u: nat, E: seq<Edge>, t: nat)
    requires EdgesWithin(E, |vis|) && 0 < t <= |E|
    ensures |Examined(vis, u, E, t)| == |Examined(vis, u, E, t - 1)| + if Target(vis, u, E[t - 1]).Some? then 1 else 0
  {
    var before, after := Examined(vis, u, E, t - 1), Examined(vis, u, E, t);
    forall k | k in after
      ensures k in before || k == t - 1
    {
    }
    if Target(vis, u, E[t - 1]).Some? {
      assert after == before + {t - 1};
    } else {
      assert after == before;
    }
  }

  /** One snapshot per edge that is not skipped. */
  lemma {:induction false} SnapsCount(s: Tables, vis: seq<bool>, u: nat, E: seq<Edge>, t: nat)
    requires Sized(s, |vis|) && u < |vis| && EdgesWithin(E, |vis|) && t <= |E|
    ensures |SnapsUpTo(s, vis, u, E, t)| == |Examined(vis, u, E, t)|
    decreases t
  {
    if t > 0 {
      SnapsCount(s, vis, u, E, t - 1);
      ExaminedStep(vis, u, E, t);
    }
  }

  /** Each snapshot names u and an unsettled neighbour that an edge really links
      it to, and carries tables of the graph's size. */
  ghost predicate SnapOk(E: seq<Edge>, n: nat, sn: Snapshot, u: nat, vis: seq<bool>)
  {
    && |vis| == n && |sn.dist| == n && |sn.padre| == n && sn.visitado == vis
    && sn.explorada.0 == u && sn.explorada.1 < n && !vis[sn.explorada.1]
    && exists k :: 0 <= k < |E| && Links(E[k], u, sn.explorada.1)
  }

  lemma {:induction false} SnapsShape(s: Tables, vis: seq<bool>, u: nat, E: seq<Edge>, t: nat)
    requires Sized(s, |vis|) && u < |vis| && EdgesWithin(E, |vis|) && t <= |E|
    ensures forall q :: 0 <= q < |SnapsUpTo(s, vis, u, E, t)| ==> SnapOk(E, |vis|, SnapsUpTo(s, vis, u, E, t)[q], u, vis)
    decreases t
  {
    if t > 0 {
      SnapsShape(s, vis, u, E, t - 1);
      var S0 := SnapsUpTo(s, vis, u, E, t - 1);
      var S := SnapsUpTo(s, vis, u, E, t);
      assert S[..|S0|] == S0;
      forall q | 0 <= q < |S|
        ensures SnapOk(E, |vis|, S[q], u, vis)
      {
        if q < |S0| {
          assert S[q] == S0[q];
        } else {
          var v := Target(vis, u, E[t - 1]).value;
          assert Links(E[t - 1], u, v);
        }
      }
    }
  }

  // ---------------------------------------------------------------------------
  // What holds between rounds

  /** The parent of v is settled and v's distance is the parent's plus the weight
      of an edge from the parent to v; a settled v was settled after its parent. */
  ghost predicate ParentOk(E: seq<Edge>, n: nat, s: Tables, vis: seq<bool>, rank: seq<nat>, v: nat)
    requires Sized(s, n) && |vis| == n && |rank| == n && v < n
  {
    var p := s.padre[v];
    && p.Some? && p.value < n && vis[p.value] && s.dist[p.value].Fin?
    && (vis[v] ==> rank[p.value] < rank[v])
    && exists t :: 0 <= t < |E| && Links(E[t], p.value, v) && s.dist[v] == Add(s.dist[p.value], Fin(E[t].peso))
  }

  /** Everything but relaxation: the origin at 0 without parent, non-negative
      distances, settled nodes no farther than unsettled ones, settled nodes finite
      and ranked in settling order, and a sound parent for every other finite node. */
  ghost predicate Core(E: seq<Edge>, n: nat, src: nat, s: Tables, vis: seq<bool>, rank: seq<nat>, count: nat)
  {
    && Sized(s, n) && |vis| == n && |rank| == n && src < n
    && s.dist[src] == Fin(0) && s.padre[src] == None
    && (forall v :: 0 <= v < n ==> NonNeg(s.dist[v]))
    && (forall x, w {:trigger vis[x], vis[w]} :: 0 <= x < n && 0 <= w < n && vis[x] && !vis[w] ==> Le(s.dist[x], s.dist[w]))
    && (forall v :: 0 <= v < n && vis[v] ==> s.dist[v].Fin? && rank[v] < count)
    && (forall v {:trigger ParentOk(E, n, s, vis, rank, v)} ::
          0 <= v < n && v != src && s.dist[v].Fin? ==> ParentOk(E, n, s, vis, rank, v))
  }

  /** The first lim edges leaving x cannot shorten any distance any more. */
  ghost predicate Relaxed(E: seq<Edge>, n: nat, s: Tables, x: nat, lim: nat)
    requires Sized(s, n) && x < n && EdgesWithin(E, n) && lim <= |E|
  {
    forall t, v :: 0 <= t < lim && 0 <= v < n && Links(E[t], x, v) ==>
      Le(s.dist[v], Add(s.dist[x], Fin(E[t].peso)))
  }

  ghost predicate Inv(E: seq<Edge>, n: nat, src: nat, s: Tables, vis: seq<bool>, rank: seq<nat>, count: nat)
    requires EdgesWithin(E, n)
  {
    && Core(E, n, src, s, vis, rank, count)
    && forall x :: 0 <= x < n && vis[x] ==> Relaxed(E, n, s, x, |E|)
  }

  /** During the round of u: u is settled and no nearer than any settled node, the
      other settled nodes are fully relaxed and u's first lim edges are. */
  ghost predicate Mid(E: seq<Edge>, n: nat, src: nat, s: Tables, vis: seq<bool>, rank: seq<nat>, count: nat,
                      u: nat, lim: nat)
    requires EdgesWithin(E, n) && lim <= |E|
  {
    && Core(E, n, src, s, vis, rank, count)
    && u < n && vis[u]
    && (forall x :: 0 <= x < n && vis[x] ==> Le(s.dist[x], s.dist[u]))
    && (forall x :: 0 <= x < n && vis[x] && x != u ==> Relaxed(E, n, s, x, |E|))
    && Relaxed(E, n, s, u, lim)
  }

  /** The tables before the first round: every distance Infinity but the origin's
      0, and no parents. */
  function Start(n: nat, origen: nat): (s: Tables)
    requires origen < n
    ensures Sized(s, n)
  {
    Tables(seq(n, _ => Inf)[origen := Fin(0)], seq(n, _ => None))
  }

  /** Nothing settled yet. */
  function NoneVisited(n: nat): (vis: seq<bool>)
    ensures |vis| == n
  {
    seq(n, _ => false)
  }

  lemma InitialInv(E: seq<Edge>, n: nat, src: nat)
    requires EdgesWithin(E, n) && src < n
    ensures Inv(E, n, src, Start(n, src), NoneVisited(n), seq(n, _ => 0), 0)
  {
  }

  /** Settling u, the nearest unsettled node, keeps the invariant's core. */
  lemma SettleCore(E: seq<Edge>, n: nat, src: nat, s: Tables, vis: seq<bool>, rank: seq<nat>, count: nat, u: nat)
    requires Core(E, n, src, s, vis, rank, count)
    requires u < n && !vis[u] && s.dist[u].Fin?
    requires forall w :: 0 <= w < n && !vis[w] ==> Le(s.dist[u], s.dist[w])
    ensures Core(E, n, src, s, vis[u := true], rank[u := count], count + 1)
  {
    var vis1, rank1 := vis[u := true], rank[u := count];
    forall x, w | 0 <= x < n && 0 <= w < n && vis1[x] && !vis1[w]
      ensures Le(s.dist[x], s.dist[w])
    {
      if x != u {
        assert vis[x] && !vis[w];
      }
    }
    forall v | 0 <= v < n && vis1[v]
      ensures s.dist[v].Fin? && rank1[v] < count + 1
    {
      if v != u {
        assert vis[v];
      }
    }
    forall v | 0 <= v < n && v != src && s.dist[v].Fin?
      ensures ParentOk(E, n, s, vis1, rank1, v)
    {
      assert ParentOk(E, n, s, vis, rank, v);
      var p := s.padre[v].value;
      assert vis[p] && rank[p] < count;
      assert vis1[p] && rank1[p] == rank[p];
    }
  }

  /** Settling u starts its round. */
  lemma Settle(E: seq<Edge>, n: nat, src: nat, s: Tables, vis: seq<bool>, rank: seq<nat>, count: nat, u: nat)
    requires EdgesWithin(E, n) && Inv(E, n, src, s, vis, rank, count)
    requires u < n && !vis[u] && s.dist[u].Fin?
    requires forall w :: 0 <= w < n && !vis[w] ==> Le(s.dist[u], s.dist[w])
    ensures Mid(E, n, src, s, vis[u := true], rank[u := count], count + 1, u, 0)
  {
    SettleCore(E, n, src, s, vis, rank, count, u);
    var vis1 := vis[u := true];
    forall x | 0 <= x < n && vis1[x]
      ensures Le(s.dist[x], s.dist[u])
    {
      if x != u {
        assert vis[x] && !vis[u];
      }
    }
    forall x | 0 <= x < n && vis1[x] && x != u
      ensures Relaxed(E, n, s, x, |E|)
    {
      assert vis[x];
    }
  }

  /** Examining edge t when it changes nothing extends u's relaxed prefix. */
  lemma RelaxStepKeeps(E: seq<Edge>, n: nat, src: nat, s: Tables, vis: seq<bool>, rank: seq<nat>, count: nat, u: nat, t: nat)
    requires EdgesWithin(E, n) && NonNegWeights(E) && t < |E|
    requires Mid(E, n, src, s, vis, rank, count, u, t)
    requires RelaxOne(s, vis, u, E[t]) == s
    ensures Mid(E, n, src, s, vis, rank, count, u, t + 1)
  {
    var e := E[t];
    AddNonNeg(s.dist[u], Fin(e.peso));
    forall k, v | 0 <= k < t + 1 && 0 <= v < n && Links(E[k], u, v)
      ensures Le(s.dist[v], Add(s.dist[u], Fin(E[k].peso)))
    {
      if k == t {
        match Target(vis, u, e)
        case None =>
          TargetNone(vis, u, e, v);
          LeTrans(s.dist[v], s.dist[u], Add(s.dist[u], Fin(e.peso)));
        case Some(w) =>
          assert Neighbour(e, u) == Some(w) && Neighbour(e, u) == Some(v);
      }
    }
  }

  /** Lowering the distance of an unsettled v through u keeps the core. */
  lemma LowerCore(E: seq<Edge>, n: nat, src: nat, s: Tables, vis: seq<bool>, rank: seq<nat>, count: nat,
                  u: nat, t: nat, v: nat)
    requires EdgesWithin(E, n) && NonNegWeights(E) && t < |E|
    requires Core(E, n, src, s, vis, rank, count)
    requires u < n && vis[u] && (forall x :: 0 <= x < n && vis[x] ==> Le(s.dist[x], s.dist[u]))
    requires v < n && !vis[v] && Links(E[t], u, v)
    requires Less(Add(s.dist[u], Fin(E[t].peso)), s.dist[v])
    ensures Core(E, n, src, Tables(s.dist[v := Add(s.dist[u], Fin(E[t].peso))], s.padre[v := Some(u)]), vis, rank, count)
  {
    var nueva := Add(s.dist[u], Fin(E[t].peso));
    var r := Tables(s.dist[v := nueva], s.padre[v := Some(u)]);
    AddNonNeg(s.dist[u], Fin(E[t].peso));
    assert v != u && v != src;
    forall x, w | 0 <= x < n && 0 <= w < n && vis[x] && !vis[w]
      ensures Le(r.dist[x], r.dist[w])
    {
      if w == v {
        LeTrans(s.dist[x], s.dist[u], nueva);
      }
    }
    forall w | 0 <= w < n && w != src && r.dist[w].Fin?
      ensures ParentOk(E, n, r, vis, rank, w)
    {
      if w == v {
        assert Links(E[t], u, v) && r.dist[v] == Add(r.dist[u], Fin(E[t].peso));
      } else {
        assert ParentOk(E, n, s, vis, rank, w);
        var p := s.padre[w].value;
        var k :| 0 <= k < |E| && Links(E[k], p, w) && s.dist[w] == Add(s.dist[p], Fin(E[k].peso));
        assert p != v;
        assert r.dist[w] == Add(r.dist[p], Fin(E[k].peso));
      }
    }
  }

  /** Lowering the distance of an unsettled v through edge t of u keeps every
      relaxed prefix and relaxes edge t. */
  lemma LowerRelaxed(E: seq<Edge>, n: nat, s: Tables, vis: seq<bool>, u: nat, t: nat, v: nat, x: nat, lim: nat)
    requires EdgesWithin(E, n) && t < |E| && lim <= |E| && Sized(s, n) && |vis| == n
    requires u < n && vis[u] && x < n && vis[x] && v < n && !vis[v] && Links(E[t], u, v)
    requires Less(Add(s.dist[u], Fin(E[t].peso)), s.dist[v])
    requires Relaxed(E, n, s, x, lim)
    ensures Relaxed(E, n, Tables(s.dist[v := Add(s.dist[u], Fin(E[t].peso))], s.padre[v := Some(u)]), x,
                    if x == u && lim == t then t + 1 else lim)
  {
    var r := Tables(s.dist[v := Add(s.dist[u], Fin(E[t].peso))], s.padre[v := Some(u)]);
    forall k, w | 0 <= k < (if x == u && lim == t then t + 1 else lim) && 0 <= w < n && Links(E[k], x, w)
      ensures Le(r.dist[w], Add(r.dist[x], Fin(E[k].peso)))
    {
      assert r.dist[x] == s.dist[x];
      if w == v && k < lim {
        LeTrans(r.dist[w], s.dist[w], Add(s.dist[x], Fin(E[k].peso)));
      }
    }
  }

  /** Examining edge t of u's round keeps the round's invariant and relaxes it. */
  lemma RelaxStep(E: seq<Edge>, n: nat, src: nat, s: Tables, vis: seq<bool>, rank: seq<nat>, count: nat, u: nat, t: nat)
    requires EdgesWithin(E, n) && NonNegWeights(E) && t < |E|
    requires Mid(E, n, src, s, vis, rank, count, u, t)
    ensures Mid(E, n, src, RelaxOne(s, vis, u, E[t]), vis, rank, count, u, t + 1)
  {
    var r := RelaxOne(s, vis, u, E[t]);
    if r == s {
      RelaxStepKeeps(E, n, src, s, vis, rank, count, u, t);
    } else {
      var v := Target(vis, u, E[t]).value;
      LowerCore(E, n, src, s, vis, rank, count, u, t, v);
      forall x | 0 <= x < n && vis[x] && x != u
        ensures Relaxed(E, n, r, x, |E|)
      {
        LowerRelaxed(E, n, s, vis, u, t, v, x, |E|);
      }
      LowerRelaxed(E, n, s, vis, u, t, v, u, t);
      forall x | 0 <= x < n && vis[x]
        ensures Le(r.dist[x], r.dist[u])
      {
        assert r.dist[x] == s.dist[x];
      }
    }
  }

  /** Examining the next edge of u's round keeps the round's invariant. */
  lemma RelaxNext(E: seq<Edge>, n: nat, src: nat, s: Tables, vis: seq<bool>, rank: seq<nat>, count: nat, u: nat, t: nat)
    requires EdgesWithin(E, n) && NonNegWeights(E) && t < |E| && Sized(s, |vis|) && u < |vis| && |vis| == n
    requires Mid(E, n, src, RelaxUpTo(s, vis, u, E, t), vis, rank, count, u, t)
    ensures Mid(E, n, src, RelaxUpTo(s, vis, u, E, t + 1), vis, rank, count, u, t + 1)
  {
    RelaxStep(E, n, src, RelaxUpTo(s, vis, u, E, t), vis, rank, count, u, t);
  }

  /** A whole round keeps the invariant. */
  lemma {:induction false} RelaxRound(E: seq<Edge>, n: nat, src: nat, s: Tables, vis: seq<bool>, rank: seq<nat>, count: nat, u: nat, t: nat)
    requires EdgesWithin(E, n) && NonNegWeights(E) && t <= |E|
    requires Mid(E, n, src, s, vis, rank, count, u, 0)
    ensures Mid(E, n, src, RelaxUpTo(s, vis, u, E, t), vis, rank, count, u, t)
    decreases t
  {
    if t > 0 {
      RelaxRound(E, n, src, s, vis, rank, count, u, t - 1);
      RelaxNext(E, n, src, s, vis, rank, count, u, t - 1);
    }
  }

  lemma MidEndsRound(E: seq<Edge>, n: nat, src: nat, s: Tables, vis: seq<bool>, rank: seq<nat>, count: nat, u: nat)
    requires EdgesWithin(E, n) && Mid(E, n, src, s, vis, rank, count, u, |E|)
    ensures Inv(E, n, src, s, vis, rank, count)
  {
  }

  // ---------------------------------------------------------------------------
  // What holds at the end

  /** No route from the origin is shorter than the distance found. */
  lemma {:induction false} RoutesNotShorter(E: seq<Edge>, n: nat, src: nat, s: Tables, vis: seq<bool>, rank: seq<nat>,
                                            count: nat, nodes: seq<nat>, es: seq<nat>)
    requires EdgesWithin(E, n) && Inv(E, n, src, s, vis, rank, count)
    requires forall v :: 0 <= v < n ==> (vis[v] <==> s.dist[v].Fin?)
    requires IsRoute(E, n, nodes, es) && nodes[0] == src
    ensures Le(s.dist[nodes[|nodes| - 1]], Fin(Cost(E, es)))
    decreases |es|
  {
    if es != [] {
      var k := |es| - 1;
      assert IsRoute(E, n, nodes[..k + 1], es[..k]);
      RoutesNotShorter(E, n, src, s, vis, rank, count, nodes[..k + 1], es[..k]);
      var x, y := nodes[k], nodes[k + 1];
      assert Relaxed(E, n, s, x, |E|);
      assert Le(s.dist[y], Add(s.dist[x], Fin(E[es[k]].peso)));
      CostSnoc(E, es[..k], es[k]);
      assert es[..k] + [es[k]] == es;
    }
  }

  /** Every finite distance is the cost of a route from the origin, found by
      following parents (which are settled earlier). */
  lemma {:induction false} RouteTo(E: seq<Edge>, n: nat, src: nat, s: Tables, vis: seq<bool>, rank: seq<nat>,
                                   count: nat, v: nat) returns (nodes: seq<nat>, es: seq<nat>)
    requires EdgesWithin(E, n) && Core(E, n, src, s, vis, rank, count)
    requires v < n && vis[v]
    ensures IsRoute(E, n, nodes, es) && nodes[0] == src && nodes[|nodes| - 1] == v
    ensures s.dist[v] == Fin(Cost(E, es))
    decreases rank[v]
  {
    if v == src {
      nodes, es := [src], [];
    } else {
      assert ParentOk(E, n, s, vis, rank, v);
      var p := s.padre[v].value;
      var t :| 0 <= t < |E| && Links(E[t], p, v) && s.dist[v] == Add(s.dist[p], Fin(E[t].peso));
      var pn, pe := RouteTo(E, n, src, s, vis, rank, count, p);
      nodes, es := pn + [v], pe + [t];
      CostSnoc(E, pe, t);
    }
  }

  /** A parent chain starting at the origin is a route as long as the distance of
      its last node. */
  lemma {:induction false} ChainIsRoute(E: seq<Edge>, n: nat, src: nat, s: Tables, vis: seq<bool>, rank: seq<nat>,
                                        count: nat, camino: seq<nat>) returns (es: seq<nat>)
    requires EdgesWithin(E, n) && Core(E, n, src, s, vis, rank, count)
    requires camino != [] && camino[0] == src
    requires forall k :: 0 <= k < |camino| ==> camino[k] < n && vis[camino[k]]
    requires forall k :: 0 <= k < |camino| - 1 ==> s.padre[camino[k + 1]] == Some(camino[k])
    ensures IsRoute(E, n, camino, es)
    ensures s.dist[camino[|camino| - 1]] == Fin(Cost(E, es))
    decreases |camino|
  {
    if |camino| == 1 {
      es := [];
    } else {
      var k := |camino| - 1;
      var pre := camino[..k];
      var pes := ChainIsRoute(E, n, src, s, vis, rank, count, pre);
      var v, p := camino[k], camino[k - 1];
      assert s.padre[v] == Some(p);
      assert v != src;
      assert ParentOk(E, n, s, vis, rank, v);
      var t :| 0 <= t < |E| && Links(E[t], p, v) && s.dist[v] == Add(s.dist[p], Fin(E[t].peso));
      es := pes + [t];
      CostSnoc(E, pes, t);
      assert camino == pre + [v];
    }
  }

  // ---------------------------------------------------------------------------
  // The log

  datatype Tentative = Tentative(node: nat, dist: Dist, padre: Option<nat>)

  /** A row of `logIteraciones`: the settled nodes ("permanentes") and the others
      with their distance and parent ("temporales"), in node order. */
  datatype LogRow = LogRow(iter: nat, permanentes: seq<nat>, temporales: seq<Tentative>)

  function Settled(vis: seq<bool>): (r: seq<nat>)
    ensures |r| <= |vis| && forall q :: 0 <= q < |r| ==> r[q] < |vis|
  {
    if vis == [] then []
    else Settled(vis[..|vis| - 1]) + if vis[|vis| - 1] then [|vis| - 1] else []
  }

  function Pending(vis: seq<bool>, dist: seq<Dist>, padre: seq<Option<nat>>): (r: seq<Tentative>)
    requires |dist| == |vis| && |padre| == |vis|
    ensures forall q :: 0 <= q < |r| ==> r[q].node < |vis|
  {
    if vis == [] then []
    else
      var k := |vis| - 1;
      Pending(vis[..k], dist[..k], padre[..k]) + if vis[k] then [] else [Tentative(k, dist[k], padre[k])]
  }

  function Row(iter: nat, vis: seq<bool>, dist: seq<Dist>, padre: seq<Option<nat>>): LogRow
    requires |dist| == |vis| && |padre| == |vis|
  {
    LogRow(iter, Settled(vis), Pending(vis, dist, padre))
  }

  /** The permanent nodes are exactly the settled ones, in increasing order. */
  lemma {:induction false} SettledExactly(vis: seq<bool>)
    ensures forall k :: k in Settled(vis) <==> 0 <= k < |vis| && vis[k]
    ensures forall a, b :: 0 <= a < b < |Settled(vis)| ==> Settled(vis)[a] < Settled(vis)[b]
    decreases |vis|
  {
    if vis != [] {
      var k := |vis| - 1;
      var pre := vis[..k];
      SettledExactly(pre);
      forall j | 0 <= j < k
        ensures pre[j] == vis[j]
      {
      }
    }
  }

  /** An entry for an unsettled node, with that node's distance and parent. */
  ghost predicate EntryOk(e: Tentative, vis: seq<bool>, dist: seq<Dist>, padre: seq<Option<nat>>)
    requires |dist| == |vis| && |padre| == |vis|
  {
    e.node < |vis| && !vis[e.node] && e.dist == dist[e.node] && e.padre == padre[e.node]
  }

  /** Each temporary entry is an unsettled node with its current distance and
      parent, in increasing node order. */
  lemma {:induction false} PendingEntries(vis: seq<bool>, dist: seq<Dist>, padre: seq<Option<nat>>)
    requires |dist| == |vis| && |padre| == |vis|
    ensures forall q :: 0 <= q < |Pending(vis, dist, padre)| ==> EntryOk(Pending(vis, dist, padre)[q], vis, dist, padre)
    ensures forall a, b :: 0 <= a < b < |Pending(vis, dist, padre)| ==>
      Pending(vis, dist, padre)[a].node < Pending(vis, dist, padre)[b].node
    decreases |vis|
  {
    if vis != [] {
      var k := |vis| - 1;
      PendingEntries(vis[..k], dist[..k], padre[..k]);
      var P0 := Pending(vis[..k], dist[..k], padre[..k]);
      var P := Pending(vis, dist, padre);
      assert P == P0 + if vis[k] then [] else [Tentative(k, dist[k], padre[k])];
      forall q | 0 <= q < |P|
        ensures EntryOk(P[q], vis, dist, padre)
      {
        if q < |P0| {
          assert P[q] == P0[q];
          assert EntryOk(P0[q], vis[..k], dist[..k], padre[..k]);
          var j := P0[q].node;
          assert vis[..k][j] == vis[j] && dist[..k][j] == dist[j] && padre[..k][j] == padre[j];
        } else {
          assert !vis[k] && P[q] == Tentative(k, dist[k], padre[k]);
        }
      }
      forall a, b | 0 <= a < b < |P|
        ensures P[a].node < P[b].node
      {
        if b < |P0| {
          assert P[a] == P0[a] && P[b] == P0[b];
        } else {
          assert P[a] == P0[a];
        }
      }
    }
  }

  /** Every unsettled node has a temporary entry, and the two parts of a row
      together have one entry per node. */
  lemma {:induction false} PendingCovers(vis: seq<bool>, dist: seq<Dist>, padre: seq<Option<nat>>)
    requires |dist| == |vis| && |padre| == |vis|
    ensures forall j :: 0 <= j < |vis| && !vis[j] ==>
      exists q :: 0 <= q < |Pending(vis, dist, padre)| && Pending(vis, dist, padre)[q].node == j
    ensures |Pending(vis, dist, padre)| + |Settled(vis)| == |vis|
    decreases |vis|
  {
    if vis != [] {
      var k := |vis| - 1;
      PendingCovers(vis[..k], dist[..k], padre[..k]);
      var P0 := Pending(vis[..k], dist[..k], padre[..k]);
      var P := Pending(vis, dist, padre);
      assert P[..|P0|] == P0;
      forall j | 0 <= j < |vis| && !vis[j]
        ensures exists q :: 0 <= q < |P| && P[q].node == j
      {
        if j < k {
          assert vis[..k][j] == vis[j];
          var q :| 0 <= q < |P0| && P0[q].node == j;
          assert P[q] == P0[q];
        } else {
          assert P[|P| - 1].node == j;
        }
      }
    }
  }

  lemma {:induction false} SettledNone(vis: seq<bool>)
    requires forall k :: 0 <= k < |vis| ==> !vis[k]
    ensures Settled(vis) == []
    decreases |vis|
  {
    if vis != [] {
      SettledNone(vis[..|vis| - 1]);
    }
  }

  lemma {:induction false} SettledMark(vis: seq<bool>, u: nat)
    requires u < |vis| && !vis[u]
    ensures |Settled(vis[u := true])| == |Settled(vis)| + 1
    decreases |vis|
  {
    var k := |vis| - 1;
    if u < k {
      assert vis[u := true][..k] == vis[..k][u := true];
      SettledMark(vis[..k], u);
    } else {
      assert vis[u := true][..k] == vis[..k];
    }
  }

  lemma {:induction false} SettledAll(vis: seq<bool>)
    requires |Settled(vis)| == |vis|
    ensures forall k :: 0 <= k < |vis| ==> vis[k]
    decreases |vis|
  {
    if vis != [] {
      var k := |vis| - 1;
      assert vis[k];
      SettledAll(vis[..k]);
      forall j | 0 <= j < |vis|
        ensures vis[j]
      {
        if j < k {
          assert vis[..k][j] == vis[j];
        }
      }
    }
  }

  // ---------------------------------------------------------------------------
  // The finished tables

  /** Once every finite node is settled, no route from the origin is cheaper than
      the distance found for its end. */
  lemma FinalOptimal(E: seq<Edge>, n: nat, src: nat, s: Tables, vis: seq<bool>, rank: seq<nat>, count: nat)
    requires EdgesWithin(E, n) && Inv(E, n, src, s, vis, rank, count)
    requires forall v :: 0 <= v < n ==> (vis[v] <==> s.dist[v].Fin?)
    ensures forall nodes, es :: IsRoute(E, n, nodes, es) && nodes[0] == src ==>
      Le(s.dist[nodes[|nodes| - 1]], Fin(Cost(E, es)))
  {
    forall nodes, es | IsRoute(E, n, nodes, es) && nodes[0] == src
      ensures Le(s.dist[nodes[|nodes| - 1]], Fin(Cost(E, es)))
    {
      RoutesNotShorter(E, n, src, s, vis, rank, count, nodes, es);
    }
  }

  /** Every finite distance is realised by a route from the origin. */
  lemma FinalRoutes(E: seq<Edge>, n: nat, src: nat, s: Tables, vis: seq<bool>, rank: seq<nat>, count: nat)
    requires EdgesWithin(E, n) && Core(E, n, src, s, vis, rank, count)
    requires forall v :: 0 <= v < n ==> (vis[v] <==> s.dist[v].Fin?)
    ensures forall v :: 0 <= v < n && s.dist[v].Fin? ==>
      exists nodes, es :: IsRoute(E, n, nodes, es) && nodes[0] == src && nodes[|nodes| - 1] == v
                          && s.dist[v] == Fin(Cost(E, es))
  {
    forall v | 0 <= v < n && s.dist[v].Fin?
      ensures exists nodes, es :: IsRoute(E, n, nodes, es) && nodes[0] == src && nodes[|nodes| - 1] == v
                                  && s.dist[v] == Fin(Cost(E, es))
    {
      var nodes, es := RouteTo(E, n, src, s, vis, rank, count, v);
    }
  }

  /** Every finite node but the origin has a parent whose distance plus an edge
      weight gives its own. */
  lemma FinalParents(E: seq<Edge>, n: nat, src: nat, s: Tables, vis: seq<bool>, rank: seq<nat>, count: nat)
    requires Core(E, n, src, s, vis, rank, count)
    ensures forall v {:trigger s.padre[v]} :: 0 <= v < n && v != src && s.dist[v].Fin? ==>
      && s.padre[v].Some? && s.padre[v].value < n && s.dist[s.padre[v].value].Fin?
      && exists t :: 0 <= t < |E| && Links(E[t], s.padre[v].value, v)
                     && s.dist[v] == Add(s.dist[s.padre[v].value], Fin(E[t].peso))
  {
    forall v | 0 <= v < n && v != src && s.dist[v].Fin?
      ensures s.padre[v].Some? && s.padre[v].value < n && s.dist[s.padre[v].value].Fin?
      ensures exists t :: 0 <= t < |E| && Links(E[t], s.padre[v].value, v)
                          && s.dist[v] == Add(s.dist[s.padre[v].value], Fin(E[t].peso))
    {
      assert ParentOk(E, n, s, vis, rank, v);
    }
  }

  /** Parents of settled nodes are settled earlier, which is what the walk back
      from the destination needs. */
  lemma ParentsEarlier(E: seq<Edge>, n: nat, src: nat, s: Tables, vis: seq<bool>, rank: seq<nat>, count: nat)
    requires Core(E, n, src, s, vis, rank, count)
    ensures forall v :: 0 <= v < n && vis[v] && s.padre[v].Some? ==>
      s.padre[v].value < n && vis[s.padre[v].value] && rank[s.padre[v].value] < rank[v]
    ensures forall v :: 0 <= v < n && vis[v] && s.padre[v].None? ==> v == src
  {
    forall v | 0 <= v < n && vis[v] && v != src
      ensures ParentOk(E, n, s, vis, rank, v)
    {
    }
  }

  // ---------------------------------------------------------------------------
  // The imperative algorithm

  /** The scan for the next node: the first unsettled node of least distance, or
      -1 when every node is settled. */
  method SelectMin(dist: array<Dist>, visitado: array<bool>) returns (u: int)
    requires dist.Length == visitado.Length
    ensures u == -1 <==> forall j :: 0 <= j < dist.Length ==> visitado[j]
    ensures u != -1 ==>
      && 0 <= u < dist.Length && !visitado[u]
      && (forall j :: 0 <= j < dist.Length && !visitado[j] ==> Le(dist[u], dist[j]))
      && (forall j :: 0 <= j < u && !visitado[j] ==> Less(dist[u], dist[j]))
  {
    u := -1;
    var j := 0;
    while j < dist.Length
      invariant 0 <= j <= dist.Length
      invariant u == -1 <==> forall k :: 0 <= k < j ==> visitado[k]
      invariant u != -1 ==>
        && 0 <= u < j && !visitado[u]
        && (forall k :: 0 <= k < j && !visitado[k] ==> Le(dist[u], dist[k]))
        && (forall k :: 0 <= k < u && !visitado[k] ==> Less(dist[u], dist[k]))
    {
      if !visitado[j] && (u == -1 || Less(dist[j], dist[u])) {
        u := j;
      }
      j := j + 1;
    }
  }

  /** The inner `for (let a of aristas)` loop for the node u just settled. */
  method RelaxEdges(dist: array<Dist>, padre: array<Option<nat>>, visitado: array<bool>, u: nat, aristas: seq<Edge>)
    returns (snaps: seq<Snapshot>)
    requires dist.Length == visitado.Length && padre.Length == visitado.Length && u < visitado.Length
    requires EdgesWithin(aristas, visitado.Length)
    modifies dist, padre
    ensures Tables(dist[..], padre[..]) == RelaxUpTo(old(Tables(dist[..], padre[..])), visitado[..], u, aristas, |aristas|)
    ensures snaps == SnapsUpTo(old(Tables(dist[..], padre[..])), visitado[..], u, aristas, |aristas|)
  {
    ghost var s0 := Tables(dist[..], padre[..]);
    snaps := [];
    var t := 0;
    while t < |aristas|
      invariant 0 <= t <= |aristas|
      invariant Tables(dist[..], padre[..]) == RelaxUpTo(s0, visitado[..], u, aristas, t)
      invariant snaps == SnapsUpTo(s0, visitado[..], u, aristas, t)
    {
      var a := aristas[t];
      var v: Option<nat> := None;
      if a.direccion == Forward {
        if u == a.from {
          v := Some(a.to);
        }
      } else if a.direccion == Both {
        if u == a.from {
          v := Some(a.to);
        } else if u == a.to {
          v := Some(a.from);
        }
      }
      if v.Some? && !visitado[v.value] {
        var nuevaDist := Add(dist[u], Fin(a.peso));
        if Less(nuevaDist, dist[v.value]) {
          dist[v.value] := nuevaDist;
          padre[v.value] := Some(u);
        }
        snaps := snaps + [Snapshot(padre[..], dist[..], visitado[..], (u, v.value))];
      }
      t := t + 1;
    }
  }

  /** One pass of the outer loop once u is chosen: mark it settled, then relax
      its edges. */
  method Round(dist: array<Dist>, padre: array<Option<nat>>, visitado: array<bool>, u: nat, aristas: seq<Edge>,
               ghost src: nat, ghost rank: seq<nat>, ghost count: nat)
    returns (snaps: seq<Snapshot>)
    requires dist.Length == visitado.Length && padre.Length == visitado.Length
    requires EdgesWithin(aristas, visitado.Length) && NonNegWeights(aristas)
    requires Inv(aristas, visitado.Length, src, Tables(dist[..], padre[..]), visitado[..], rank, count)
    requires u < visitado.Length && !visitado[u] && dist[u].Fin?
    requires forall w :: 0 <= w < visitado.Length && !visitado[w] ==> Le(dist[u], dist[w])
    modifies dist, padre, visitado
    ensures visitado[..] == old(visitado[..])[u := true]
    ensures Inv(aristas, visitado.Length, src, Tables(dist[..], padre[..]), visitado[..], rank[u := count], count + 1)
    ensures Tables(dist[..], padre[..]) == RelaxUpTo(old(Tables(dist[..], padre[..])), visitado[..], u, aristas, |aristas|)
    ensures snaps == SnapsUpTo(old(Tables(dist[..], padre[..])), visitado[..], u, aristas, |aristas|)
  {
    ghost var s := Tables(dist[..], padre[..]);
    ghost var vis := visitado[..];
    visitado[u] := true;
    assert visitado[..] == vis[u := true];
    Settle(aristas, visitado.Length, src, s, vis, rank, count, u);
    snaps := RelaxEdges(dist, padre, visitado, u, aristas);
    RelaxRound(aristas, visitado.Length, src, s, visitado[..], rank[u := count], count + 1, u, |aristas|);
    MidEndsRound(aristas, visitado.Length, src, Tables(dist[..], padre[..]), visitado[..], rank[u := count], count + 1, u);
  }

  /** Builds the log row from the current tables. */
  method LogRowOf(iter: nat, dist: array<Dist>, padre: array<Option<nat>>, visitado: array<bool>) returns (row: LogRow)
    requires dist.Length == visitado.Length && padre.Length == visitado.Length
    ensures row == Row(iter, visitado[..], dist[..], padre[..])
  {
    var permanentes := [];
    var temporales := [];
    var k := 0;
    while k < visitado.Length
      invariant 0 <= k <= visitado.Length
      invariant permanentes == Settled(visitado[..k])
      invariant temporales == Pending(visitado[..k], dist[..k], padre[..k])
    {
      assert visitado[..k + 1][..k] == visitado[..k];
      assert dist[..k + 1][..k] == dist[..k];
      assert padre[..k + 1][..k] == padre[..k];
      if visitado[k] {
        permanentes := permanentes + [k];
      } else {
        temporales := temporales + [Tentative(k, dist[k], padre[k])];
      }
      k := k + 1;
    }
    assert visitado[..] == visitado[..k] && dist[..] == dist[..k] && padre[..] == padre[..k];
    row := LogRow(iter, permanentes, temporales);
  }

  /** `for (let v = destino; v !== null; v = padre[v]) camino.unshift(v)`. The ghost
      ranks strictly fall along parents, so the walk ends. */
  method WalkParents(padre: array<Option<nat>>, destino: nat, ghost vis: seq<bool>, ghost rank: seq<nat>)
    returns (camino: seq<nat>)
    requires |vis| == padre.Length && |rank| == padre.Length && destino < padre.Length && vis[destino]
    requires forall v :: 0 <= v < padre.Length && vis[v] && padre[v].Some? ==>
      padre[v].value < padre.Length && vis[padre[v].value] && rank[padre[v].value] < rank[v]
    ensures forall k :: 0 <= k < |camino| ==> camino[k] < padre.Length && vis[camino[k]]
    ensures camino != [] && camino[|camino| - 1] == destino && padre[camino[0]].None?
    ensures forall k :: 0 <= k < |camino| - 1 ==> padre[camino[k + 1]] == Some(camino[k])
  {
    var v: Option<nat> := Some(destino);
    camino := [];
    while v.Some?
      invariant v.Some? ==> v.value < padre.Length && vis[v.value]
      invariant forall k :: 0 <= k < |camino| ==> camino[k] < padre.Length && vis[camino[k]]
      invariant camino == [] ==> v == Some(destino)
      invariant camino != [] ==> camino[|camino| - 1] == destino && padre[camino[0]] == v
      invariant forall k :: 0 <= k < |camino| - 1 ==> padre[camino[k + 1]] == Some(camino[k])
      decreases if v.Some? then rank[v.value] + 1 else 0
    {
      camino := [v.value] + camino;
      v := padre[v.value];
    }
  }

  /** What a run of `calcularDijkstra` leaves behind. */
  datatype Outcome =
    | Refused
    | Ran(dist: seq<Dist>, padre: seq<Option<nat>>, visitado: seq<bool>, snapshots: seq<Snapshot>,
          log: seq<LogRow>, camino: seq<nat>, caminoAristas: seq<(nat, nat)>)

  /** What the snapshots taken so far promise: each names a settled node and an
      unsettled neighbour it is linked to. */
  ghost predicate SnapsOk(E: seq<Edge>, n: nat, snapshots: seq<Snapshot>, vis: seq<bool>)
  {
    forall q :: 0 <= q < |snapshots| ==>
      && SnapOk(E, n, snapshots[q], snapshots[q].explorada.0, snapshots[q].visitado)
      && snapshots[q].explorada.0 < |vis| && vis[snapshots[q].explorada.0]
  }

  /** What the log kept so far promises: one row per round, numbered from 1, the
      q-th with q settled nodes, the last one showing the current tables. */
  ghost predicate LogOk(log: seq<LogRow>, vis: seq<bool>, dist: seq<Dist>, padre: seq<Option<nat>>)
    requires |dist| == |vis| && |padre| == |vis|
  {
    && (forall q :: 0 <= q < |log| ==> log[q].iter == q + 1 && |log[q].permanentes| == q + 1)
    && (log != [] ==> log[|log| - 1] == Row(|log|, vis, dist, padre))
  }

  /** Appending the row of a round that settled one more node keeps the log well
      numbered. */
  lemma LogGrows(log: seq<LogRow>, row: LogRow, vis0: seq<bool>, dist0: seq<Dist>, padre0: seq<Option<nat>>,
                 vis: seq<bool>, dist: seq<Dist>, padre: seq<Option<nat>>)
    requires |dist0| == |vis0| && |padre0| == |vis0| && |dist| == |vis| && |padre| == |vis|
    requires LogOk(log, vis0, dist0, padre0)
    requires row == Row(|log| + 1, vis, dist, padre) && |Settled(vis)| == |log| + 1
    ensures LogOk(log + [row], vis, dist, padre)
  {
    assert forall q :: 0 <= q < |log| ==> (log + [row])[q] == log[q];
  }

  /** The snapshots of u's round, taken once u is settled, extend a valid list. */
  lemma SnapsGrow(E: seq<Edge>, n: nat, snapshots: seq<Snapshot>, snaps: seq<Snapshot>, vis0: seq<bool>, u: nat)
    requires |vis0| == n && u < n
    requires SnapsOk(E, n, snapshots, vis0)
    requires forall q :: 0 <= q < |snaps| ==> SnapOk(E, n, snaps[q], u, vis0[u := true])
    ensures SnapsOk(E, n, snapshots + snaps, vis0[u := true])
  {
    var all := snapshots + snaps;
    forall q | 0 <= q < |all|
      ensures SnapOk(E, n, all[q], all[q].explorada.0, all[q].visitado)
      ensures all[q].explorada.0 < n && vis0[u := true][all[q].explorada.0]
    {
      if q < |snapshots| {
        assert all[q] == snapshots[q];
      } else {
        assert all[q] == snaps[q - |snapshots|];
      }
    }
  }

  // ---------------------------------------------------------------------------
  // The whole run, round by round

  /** One round of the outer loop: the node u it settles, and the tables and the
      visited flags just before. */
  datatype Settlement = Settlement(u: nat, before: Tables, vis: seq<bool>)

  predicate Fits(E: seq<Edge>, h: Settlement)
  {
    Sized(h.before, |h.vis|) && h.u < |h.vis| && EdgesWithin(E, |h.vis|)
  }

  /** The visited flags after the round. */
  function VisAfter(h: Settlement): (r: seq<bool>)
    requires h.u < |h.vis|
    ensures |r| == |h.vis| && r[h.u]
  {
    h.vis[h.u := true]
  }

  /** The tables after the round: u's edges relaxed in list order. */
  function After(E: seq<Edge>, h: Settlement): (r: Tables)
    requires Fits(E, h)
    ensures Sized(r, |h.vis|)
  {
    RelaxUpTo(h.before, VisAfter(h), h.u, E, |E|)
  }

  /** The snapshots the round takes. */
  function SnapsOf(E: seq<Edge>, h: Settlement): seq<Snapshot>
    requires Fits(E, h)
  {
    SnapsUpTo(h.before, VisAfter(h), h.u, E, |E|)
  }

  /** u is the node the linear scan picks and does not stop at: unsettled, at a
      finite distance, no farther than any unsettled node and strictly nearer than
      every unsettled node before it. */
  ghost predicate Chosen(h: Settlement)
    requires h.u < |h.vis| && |h.before.dist| == |h.vis|
  {
    && !h.vis[h.u] && h.before.dist[h.u].Fin?
    && (forall w :: 0 <= w < |h.vis| && !h.vis[w] ==> Le(h.before.dist[h.u], h.before.dist[w]))
    && (forall w :: 0 <= w < h.u && !h.vis[w] ==> Less(h.before.dist[h.u], h.before.dist[w]))
  }

  /** The rounds in hist lead from (s0, vis0) to (s, vis), each one chosen by the
      scan and starting where the one before ended. */
  ghost predicate Chain(E: seq<Edge>, n: nat, s0: Tables, vis0: seq<bool>, hist: seq<Settlement>, s: Tables, vis: seq<bool>)
  {
    && (forall q :: 0 <= q < |hist| ==> |hist[q].vis| == n && Fits(E, hist[q]) && Chosen(hist[q]))
    && (hist == [] ==> s == s0 && vis == vis0)
    && (hist != [] ==>
          && hist[0].before == s0 && hist[0].vis == vis0
          && After(E, hist[|hist| - 1]) == s && VisAfter(hist[|hist| - 1]) == vis)
    && (forall q :: 0 < q < |hist| ==> hist[q].before == After(E, hist[q - 1]) && hist[q].vis == VisAfter(hist[q - 1]))
  }

  /** The snapshots of all the rounds, in order. */
  function HistSnaps(E: seq<Edge>, hist: seq<Settlement>): seq<Snapshot>
    requires forall q :: 0 <= q < |hist| ==> Fits(E, hist[q])
  {
    if hist == [] then [] else HistSnaps(E, hist[..|hist| - 1]) + SnapsOf(E, hist[|hist| - 1])
  }

  /** One log row per round, numbered from 1, each built from the tables and
      flags that round leaves. */
  function HistLog(E: seq<Edge>, hist: seq<Settlement>): seq<LogRow>
    requires forall q :: 0 <= q < |hist| ==> Fits(E, hist[q])
  {
    if hist == [] then []
    else
      var h := hist[|hist| - 1];
      var t := After(E, h);
      HistLog(E, hist[..|hist| - 1]) + [Row(|hist|, VisAfter(h), t.dist, t.padre)]
  }

  /** A round chosen where a chain ends extends it. */
  lemma ChainGrows(E: seq<Edge>, n: nat, s0: Tables, vis0: seq<bool>, hist: seq<Settlement>, h: Settlement)
    requires |h.vis| == n && Fits(E, h) && Chosen(h)
    requires Chain(E, n, s0, vis0, hist, h.before, h.vis)
    ensures Chain(E, n, s0, vis0, hist + [h], After(E, h), VisAfter(h))
  {
    var H := hist + [h];
    forall q | 0 <= q < |H|
      ensures |H[q].vis| == n && Fits(E, H[q]) && Chosen(H[q])
    {
      if q < |hist| {
        assert H[q] == hist[q];
      }
    }
    forall q | 0 < q < |H|
      ensures H[q].before == After(E, H[q - 1]) && H[q].vis == VisAfter(H[q - 1])
    {
      assert H[q - 1] == hist[q - 1];
      if q < |hist| {
        assert H[q] == hist[q];
      }
    }
  }

  lemma HistSnapsGrow(E: seq<Edge>, hist: seq<Settlement>, h: Settlement)
    requires (forall q :: 0 <= q < |hist| ==> Fits(E, hist[q])) && Fits(E, h)
    ensures forall q :: 0 <= q < |hist + [h]| ==> Fits(E, (hist + [h])[q])
    ensures HistSnaps(E, hist + [h]) == HistSnaps(E, hist) + SnapsOf(E, h)
  {
    assert (hist + [h])[..|hist|] == hist;
  }

  lemma HistLogGrows(E: seq<Edge>, hist: seq<Settlement>, h: Settlement)
    requires (forall q :: 0 <= q < |hist| ==> Fits(E, hist[q])) && Fits(E, h)
    ensures forall q :: 0 <= q < |hist + [h]| ==> Fits(E, (hist + [h])[q])
    ensures HistLog(E, hist + [h]) == HistLog(E, hist) + [Row(|hist| + 1, VisAfter(h), After(E, h).dist, After(E, h).padre)]
  {
    assert (hist + [h])[..|hist|] == hist;
  }

  /** Whatever the loop has done so far, as a history of rounds. */
  ghost predicate Traced(E: seq<Edge>, n: nat, s0: Tables, vis0: seq<bool>, hist: seq<Settlement>,
                         s: Tables, vis: seq<bool>, snapshots: seq<Snapshot>, log: seq<LogRow>)
  {
    && Chain(E, n, s0, vis0, hist, s, vis)
    && snapshots == HistSnaps(E, hist)
    && log == HistLog(E, hist)
  }

  /** One pass of the outer loop that found u: settle and relax it, then append
      its snapshots and its log row. */
  method Advance(dist: array<Dist>, padre: array<Option<nat>>, visitado: array<bool>, u: nat, aristas: seq<Edge>,
                 ghost src: nat, ghost s0: Tables, ghost vis0: seq<bool>, ghost hist: seq<Settlement>,
                 ghost rank: seq<nat>, count: nat, snapshots: seq<Snapshot>, log: seq<LogRow>)
    returns (snapshots': seq<Snapshot>, log': seq<LogRow>, ghost rank': seq<nat>)
    requires dist.Length == visitado.Length && padre.Length == visitado.Length && count < visitado.Length
    requires EdgesWithin(aristas, visitado.Length) && NonNegWeights(aristas)
    requires Progress(aristas, visitado.Length, src, s0, vis0, hist, dist[..], padre[..], visitado[..],
                      rank, count, false, snapshots, log)
    requires u < visitado.Length && Chosen(Settlement(u, Tables(dist[..], padre[..]), visitado[..]))
    modifies dist, padre, visitado
    ensures Progress(aristas, visitado.Length, src, s0, vis0, hist + [Settlement(u, old(Tables(dist[..], padre[..])), old(visitado[..]))],
                     dist[..], padre[..], visitado[..], rank', count + 1, false, snapshots', log')
    ensures visitado[..] == old(visitado[..])[u := true]
    ensures Tables(dist[..], padre[..]) == RelaxUpTo(old(Tables(dist[..], padre[..])), visitado[..], u, aristas, |aristas|)
    ensures snapshots' == snapshots + SnapsUpTo(old(Tables(dist[..], padre[..])), visitado[..], u, aristas, |aristas|)
    ensures log' == log + [Row(count + 1, visitado[..], dist[..], padre[..])]
  {
    ghost var s := Tables(dist[..], padre[..]);
    ghost var vis := visitado[..];
    ghost var h := Settlement(u, s, vis);
    var snaps := Round(dist, padre, visitado, u, aristas, src, rank, count);
    rank' := rank[u := count];
    SettledMark(vis, u);
    snapshots' := snapshots + snaps;
    var row := LogRowOf(count + 1, dist, padre, visitado);
    log' := log + [row];
    TracedGrows(aristas, visitado.Length, s0, vis0, hist, h, snapshots, log);
  }

  /** A round chosen where the history ends extends it, the snapshots by the
      round's snapshots and the log by the round's row. */
  lemma TracedGrows(E: seq<Edge>, n: nat, s0: Tables, vis0: seq<bool>, hist: seq<Settlement>, h: Settlement,
                    snapshots: seq<Snapshot>, log: seq<LogRow>)
    requires |h.vis| == n && Fits(E, h) && Chosen(h)
    requires Traced(E, n, s0, vis0, hist, h.before, h.vis, snapshots, log)
    ensures Traced(E, n, s0, vis0, hist + [h], After(E, h), VisAfter(h), snapshots + SnapsOf(E, h),
                   log + [Row(|hist| + 1, VisAfter(h), After(E, h).dist, After(E, h).padre)])
  {
    ChainGrows(E, n, s0, vis0, hist, h);
    HistSnapsGrow(E, hist, h);
    HistLogGrows(E, hist, h);
  }

  /** Every prefix of a chain is a chain, ending where the next round starts. */
  lemma ChainPrefix(E: seq<Edge>, n: nat, s0: Tables, vis0: seq<bool>, hist: seq<Settlement>, s: Tables, vis: seq<bool>, m: nat)
    requires Chain(E, n, s0, vis0, hist, s, vis) && m < |hist|
    ensures Chain(E, n, s0, vis0, hist[..m], hist[m].before, hist[m].vis)
  {
    var P := hist[..m];
    assert forall q :: 0 <= q < m ==> P[q] == hist[q];
  }

  /** The log of a run from the start: row q is numbered q + 1 and lists the
      q + 1 nodes settled by then, and the last row shows the tables the run ends
      with. */
  lemma {:induction false} TracedLogOk(E: seq<Edge>, n: nat, src: nat, hist: seq<Settlement>, s: Tables, vis: seq<bool>)
    requires src < n && Chain(E, n, Start(n, src), NoneVisited(n), hist, s, vis)
    ensures |vis| == n && Sized(s, n) && |Settled(vis)| == |hist| == |HistLog(E, hist)|
    ensures LogOk(HistLog(E, hist), vis, s.dist, s.padre)
    decreases |hist|
  {
    if hist == [] {
      SettledNone(vis);
    } else {
      var m := |hist| - 1;
      var h := hist[m];
      ChainPrefix(E, n, Start(n, src), NoneVisited(n), hist, s, vis, m);
      TracedLogOk(E, n, src, hist[..m], h.before, h.vis);
      SettledMark(h.vis, h.u);
      LogGrows(HistLog(E, hist[..m]), Row(|hist|, vis, s.dist, s.padre), h.vis, h.before.dist, h.before.padre,
               vis, s.dist, s.padre);
    }
  }

  /** Every snapshot of a run names a node settled by the end and an edge from it
      to a node that was unsettled when the snapshot was taken. */
  lemma {:induction false} TracedSnapsOk(E: seq<Edge>, n: nat, s0: Tables, vis0: seq<bool>, hist: seq<Settlement>,
                                         s: Tables, vis: seq<bool>)
    requires |vis0| == n && Chain(E, n, s0, vis0, hist, s, vis)
    ensures SnapsOk(E, n, HistSnaps(E, hist), vis)
    decreases |hist|
  {
    if hist != [] {
      var m := |hist| - 1;
      var h := hist[m];
      ChainPrefix(E, n, s0, vis0, hist, s, vis, m);
      TracedSnapsOk(E, n, s0, vis0, hist[..m], h.before, h.vis);
      SnapsShape(h.before, VisAfter(h), h.u, E, |E|);
      SnapsGrow(E, n, HistSnaps(E, hist[..m]), SnapsOf(E, h), h.vis, h.u);
    }
  }

  /** The scan's choice depends only on the tables and the flags. */
  lemma ChoiceUnique(h1: Settlement, h2: Settlement)
    requires h1.u < |h1.vis| && |h1.before.dist| == |h1.vis| && Chosen(h1)
    requires h2.u < |h2.vis| && |h2.before.dist| == |h2.vis| && Chosen(h2)
    requires h1.before == h2.before && h1.vis == h2.vis
    ensures h1 == h2
  {
    if h1.u != h2.u {
      assert false;
    }
  }

  /** Where the loop stops: every unsettled node is at Infinity. */
  ghost predicate Finished(s: Tables, vis: seq<bool>)
    requires |s.dist| == |vis|
  {
    forall v :: 0 <= v < |vis| && !vis[v] ==> s.dist[v].Inf?
  }

  /** Two chains from the same state that agree before round q agree on it. */
  lemma SameRound(E: seq<Edge>, n: nat, s0: Tables, vis0: seq<bool>,
                  h1: seq<Settlement>, s1: Tables, vis1: seq<bool>,
                  h2: seq<Settlement>, s2: Tables, vis2: seq<bool>, q: nat)
    requires Chain(E, n, s0, vis0, h1, s1, vis1) && Chain(E, n, s0, vis0, h2, s2, vis2)
    requires q < |h1| && q < |h2| && (q > 0 ==> h1[q - 1] == h2[q - 1])
    ensures h1[q] == h2[q]
  {
    ChoiceUnique(h1[q], h2[q]);
  }

  /** Two chains from the same state agree for as long as both go on. */
  lemma {:induction false} PrefixesAgree(E: seq<Edge>, n: nat, s0: Tables, vis0: seq<bool>,
                                         h1: seq<Settlement>, s1: Tables, vis1: seq<bool>,
                                         h2: seq<Settlement>, s2: Tables, vis2: seq<bool>, k: nat)
    requires Chain(E, n, s0, vis0, h1, s1, vis1) && Chain(E, n, s0, vis0, h2, s2, vis2)
    requires k <= |h1| && k <= |h2|
    ensures forall q :: 0 <= q < k ==> h1[q] == h2[q]
    decreases k
  {
    if k > 0 {
      PrefixesAgree(E, n, s0, vis0, h1, s1, vis1, h2, s2, vis2, k - 1);
      SameRound(E, n, s0, vis0, h1, s1, vis1, h2, s2, vis2, k - 1);
    }
  }

  /** A chain that has stopped is not outlived by another chain from the same
      state. */
  lemma NoRoundAfterFinish(E: seq<Edge>, n: nat, s0: Tables, vis0: seq<bool>,
                           h1: seq<Settlement>, s1: Tables, vis1: seq<bool>,
                           h2: seq<Settlement>, s2: Tables, vis2: seq<bool>)
    requires Chain(E, n, s0, vis0, h1, s1, vis1) && Chain(E, n, s0, vis0, h2, s2, vis2)
    requires |s1.dist| == |vis1| && Finished(s1, vis1)
    ensures |h2| <= |h1|
  {
    if |h1| < |h2| {
      PrefixesAgree(E, n, s0, vis0, h1, s1, vis1, h2, s2, vis2, |h1|);
      // the next round of h2 starts where h1 stopped, yet picks a reachable node
      NextRoundStart(E, n, s0, vis0, h1, s1, vis1, h2, s2, vis2);
      assert false;
    }
  }

  /** A chain that extends another starts its next round where the shorter one
      ends. */
  lemma NextRoundStart(E: seq<Edge>, n: nat, s0: Tables, vis0: seq<bool>,
                       h1: seq<Settlement>, s1: Tables, vis1: seq<bool>,
                       h2: seq<Settlement>, s2: Tables, vis2: seq<bool>)
    requires Chain(E, n, s0, vis0, h1, s1, vis1) && Chain(E, n, s0, vis0, h2, s2, vis2)
    requires |h1| < |h2| && forall q :: 0 <= q < |h1| ==> h1[q] == h2[q]
    ensures h2[|h1|].before == s1 && h2[|h1|].vis == vis1
  {
    if h1 != [] {
      assert h1[|h1| - 1] == h2[|h1| - 1];
    }
  }

  /** The run is fixed by where it starts: two histories from the same state that
      both end with every unsettled node at Infinity are the same rounds. */
  lemma RunDetermined(E: seq<Edge>, n: nat, s0: Tables, vis0: seq<bool>,
                      h1: seq<Settlement>, s1: Tables, vis1: seq<bool>,
                      h2: seq<Settlement>, s2: Tables, vis2: seq<bool>)
    requires Chain(E, n, s0, vis0, h1, s1, vis1) && Chain(E, n, s0, vis0, h2, s2, vis2)
    requires |s1.dist| == |vis1| && Finished(s1, vis1)
    requires |s2.dist| == |vis2| && Finished(s2, vis2)
    ensures h1 == h2
  {
    NoRoundAfterFinish(E, n, s0, vis0, h1, s1, vis1, h2, s2, vis2);
    NoRoundAfterFinish(E, n, s0, vis0, h2, s2, vis2, h1, s1, vis1);
    PrefixesAgree(E, n, s0, vis0, h1, s1, vis1, h2, s2, vis2, |h1|);
  }

  /** What the outer loop of `calcularDijkstra` keeps after `count` rounds that
      started from (s0, vis0). */
  ghost predicate Progress(E: seq<Edge>, n: nat, src: nat, s0: Tables, vis0: seq<bool>, hist: seq<Settlement>,
                           dist: seq<Dist>, padre: seq<Option<nat>>, vis: seq<bool>,
                           rank: seq<nat>, count: nat, done: bool, snapshots: seq<Snapshot>, log: seq<LogRow>)
  {
    && EdgesWithin(E, n) && |dist| == n && |padre| == n && |vis| == n && count <= n
    && Inv(E, n, src, Tables(dist, padre), vis, rank, count)
    && |Settled(vis)| == count == |log| == |hist|
    && (done ==> forall v :: 0 <= v < n && !vis[v] ==> dist[v].Inf?)
    && Traced(E, n, s0, vis0, hist, Tables(dist, padre), vis, snapshots, log)
  }

  /** One pass of the outer loop: pick the closest unsettled node; stop when
      there is none or it is at Infinity, otherwise settle and relax it. */
  method Iterate(dist: array<Dist>, padre: array<Option<nat>>, visitado: array<bool>, aristas: seq<Edge>,
                 ghost src: nat, ghost s0: Tables, ghost vis0: seq<bool>, ghost hist: seq<Settlement>,
                 ghost rank: seq<nat>, count: nat, snapshots: seq<Snapshot>, log: seq<LogRow>)
    returns (done: bool, snapshots': seq<Snapshot>, log': seq<LogRow>, ghost hist': seq<Settlement>,
             ghost rank': seq<nat>, count': nat)
    requires dist.Length == visitado.Length && padre.Length == visitado.Length && count < visitado.Length
    requires EdgesWithin(aristas, visitado.Length) && NonNegWeights(aristas)
    requires Progress(aristas, visitado.Length, src, s0, vis0, hist, dist[..], padre[..], visitado[..],
                      rank, count, false, snapshots, log)
    modifies dist, padre, visitado
    ensures count' == if done then count else count + 1
    ensures Progress(aristas, visitado.Length, src, s0, vis0, hist', dist[..], padre[..], visitado[..],
                     rank', count', done, snapshots', log')
  {
    var u := SelectMin(dist, visitado);
    if u == -1 || dist[u].Inf? {
      done, snapshots', log', hist', rank', count' := true, snapshots, log, hist, rank, count;
    } else {
      hist' := hist + [Settlement(u, Tables(dist[..], padre[..]), visitado[..])];
      done := false;
      snapshots', log', rank' := Advance(dist, padre, visitado, u, aristas, src, s0, vis0, hist, rank, count, snapshots, log);
      count' := count + 1;
    }
  }

  /** Before the first round the loop's promise holds with nothing settled and an
      empty history, log and snapshot list. */
  lemma ProgressStart(E: seq<Edge>, n: nat, src: nat)
    requires EdgesWithin(E, n) && src < n
    ensures Progress(E, n, src, Start(n, src), NoneVisited(n), [], Start(n, src).dist, Start(n, src).padre,
                     NoneVisited(n), seq(n, _ => 0), 0, false, [], [])
  {
    InitialInv(E, n, src);
    SettledNone(NoneVisited(n));
  }

  /** The loop of `Rounds`, from the initial tables: it stops after n rounds or
      when the round finds no reachable unsettled node. */
  method RoundsLoop(dist: array<Dist>, padre: array<Option<nat>>, visitado: array<bool>, aristas: seq<Edge>,
                    ghost src: nat)
    returns (snapshots: seq<Snapshot>, log: seq<LogRow>, ghost hist: seq<Settlement>, ghost rank: seq<nat>,
             count: nat, done: bool)
    requires dist.Length == visitado.Length && padre.Length == visitado.Length
    requires EdgesWithin(aristas, visitado.Length) && NonNegWeights(aristas) && src < visitado.Length
    requires Progress(aristas, visitado.Length, src, Start(visitado.Length, src), NoneVisited(visitado.Length), [],
                      dist[..], padre[..], visitado[..], seq(visitado.Length, _ => 0), 0, false, [], [])
    modifies dist, padre, visitado
    ensures Progress(aristas, visitado.Length, src, Start(visitado.Length, src), NoneVisited(visitado.Length), hist,
                     dist[..], padre[..], visitado[..], rank, count, done, snapshots, log)
    ensures !done ==> count == visitado.Length
  {
    var n := visitado.Length;
    ghost var s0, vis0 := Start(n, src), NoneVisited(n);
    hist := [];
    rank := seq(n, _ => 0);
    snapshots := [];
    log := [];
    count := 0;
    done := false;
    while count < n && !done
      decreases n - count, if done then 0 else 1
      invariant Progress(aristas, n, src, s0, vis0, hist, dist[..], padre[..], visitado[..], rank, count, done, snapshots, log)
    {
      done, snapshots, log, hist, rank, count :=
        Iterate(dist, padre, visitado, aristas, src, s0, vis0, hist, rank, count, snapshots, log);
    }
  }

  /** The outer loop of `calcularDijkstra`: at most n rounds, leaving early once
      no unsettled node is reachable. The rounds it made are returned as a
      history; the snapshots and the log are exactly those of that history. */
  method Rounds(dist: array<Dist>, padre: array<Option<nat>>, visitado: array<bool>, aristas: seq<Edge>, ghost src: nat)
    returns (snapshots: seq<Snapshot>, log: seq<LogRow>, ghost hist: seq<Settlement>, ghost rank: seq<nat>, ghost count: nat)
    requires dist.Length == visitado.Length && padre.Length == visitado.Length
    requires EdgesWithin(aristas, visitado.Length) && NonNegWeights(aristas)
    requires src < visitado.Length
    requires Tables(dist[..], padre[..]) == Start(visitado.Length, src) && visitado[..] == NoneVisited(visitado.Length)
    modifies dist, padre, visitado
    ensures Inv(aristas, visitado.Length, src, Tables(dist[..], padre[..]), visitado[..], rank, count)
    ensures forall v :: 0 <= v < visitado.Length ==> (visitado[v] <==> dist[v].Fin?)
    ensures |log| == |Settled(visitado[..])| <= visitado.Length
    ensures Traced(aristas, visitado.Length, Start(visitado.Length, src), NoneVisited(visitado.Length), hist,
                   Tables(dist[..], padre[..]), visitado[..], snapshots, log)
    ensures LogOk(log, visitado[..], dist[..], padre[..])
    ensures SnapsOk(aristas, visitado.Length, snapshots, visitado[..])
  {
    var n := visitado.Length;
    ProgressStart(aristas, n, src);
    var done;
    snapshots, log, hist, rank, count, done := RoundsLoop(dist, padre, visitado, aristas, src);
    RoundsEnd(aristas, n, src, hist, Tables(dist[..], padre[..]), visitado[..], rank, count, done, snapshots, log);
  }

  /** The loop stops either after n rounds, with every node settled, or when every
      unsettled node is at Infinity: either way the settled nodes are exactly the
      finite ones, and the log and the snapshots are those of the rounds made. */
  lemma RoundsEnd(E: seq<Edge>, n: nat, src: nat, hist: seq<Settlement>, s: Tables, vis: seq<bool>,
                  rank: seq<nat>, count: nat, done: bool, snapshots: seq<Snapshot>, log: seq<LogRow>)
    requires src < n && (!done ==> count == n)
    requires Progress(E, n, src, Start(n, src), NoneVisited(n), hist, s.dist, s.padre, vis, rank, count, done, snapshots, log)
    ensures Inv(E, n, src, s, vis, rank, count)
    ensures forall v :: 0 <= v < n ==> (vis[v] <==> s.dist[v].Fin?)
    ensures |log| == |Settled(vis)| <= n
    ensures Traced(E, n, Start(n, src), NoneVisited(n), hist, s, vis, snapshots, log)
    ensures LogOk(log, vis, s.dist, s.padre)
    ensures SnapsOk(E, n, snapshots, vis)
  {
    if !done {
      SettledAll(vis);
    }
    assert Tables(s.dist, s.padre) == s;
    TracedLogOk(E, n, src, hist, s, vis);
    TracedSnapsOk(E, n, Start(n, src), NoneVisited(n), hist, s, vis);
  }

  /** The finished tables: every distance is the least route cost from the origin
      (Inf exactly when no route exists, which is exactly when the node was never
      settled), and every reached node but the origin has a parent whose distance
      plus the weight of an edge between them is its own. */
  ghost predicate ShortestTables(E: seq<Edge>, n: nat, src: nat, dist: seq<Dist>, padre: seq<Option<nat>>, visitado: seq<bool>)
  {
    && |dist| == n && |padre| == n && |visitado| == n && src < n
    && dist[src] == Fin(0) && padre[src] == None
    && (forall v :: 0 <= v < n ==> (visitado[v] <==> dist[v].Fin?))
    && (forall nodes, es :: IsRoute(E, n, nodes, es) && nodes[0] == src ==>
          Le(dist[nodes[|nodes| - 1]], Fin(Cost(E, es))))
    && (forall v :: 0 <= v < n && dist[v].Fin? ==>
          exists nodes, es :: IsRoute(E, n, nodes, es) && nodes[0] == src && nodes[|nodes| - 1] == v
                              && dist[v] == Fin(Cost(E, es)))
    && (forall v {:trigger padre[v]} :: 0 <= v < n && v != src && dist[v].Fin? ==>
          && padre[v].Some? && padre[v].value < n && dist[padre[v].value].Fin?
          && exists t :: 0 <= t < |E| && Links(E[t], padre[v].value, v)
                         && dist[v] == Add(dist[padre[v].value], Fin(E[t].peso)))
  }

  /** The path reported for the destination: empty when it is unreachable;
      otherwise a route from the origin to it along parents, as cheap as its
      distance, with its consecutive pairs as the highlighted edges. */
  ghost predicate ReportedPath(E: seq<Edge>, n: nat, src: nat, dest: nat, dist: seq<Dist>, padre: seq<Option<nat>>,
                               camino: seq<nat>, caminoAristas: seq<(nat, nat)>)
    requires |dist| == n && |padre| == n && dest < n
  {
    if dist[dest].Inf? then camino == [] && caminoAristas == []
    else
      && camino != [] && camino[0] == src && camino[|camino| - 1] == dest
      && (forall k :: 0 <= k < |camino| ==> camino[k] < n)
      && (forall k :: 0 <= k < |camino| - 1 ==> padre[camino[k + 1]] == Some(camino[k]))
      && (exists es :: IsRoute(E, n, camino, es) && dist[dest] == Fin(Cost(E, es)))
      && |caminoAristas| == |camino| - 1
      && (forall k :: 0 <= k < |caminoAristas| ==> caminoAristas[k] == (camino[k], camino[k + 1]))
  }

  /** The invariant with every finite node settled gives the finished tables. */
  lemma FinalTables(E: seq<Edge>, n: nat, src: nat, s: Tables, vis: seq<bool>, rank: seq<nat>, count: nat)
    requires EdgesWithin(E, n) && Inv(E, n, src, s, vis, rank, count)
    requires forall v :: 0 <= v < n ==> (vis[v] <==> s.dist[v].Fin?)
    ensures ShortestTables(E, n, src, s.dist, s.padre, vis)
  {
    FinalOptimal(E, n, src, s, vis, rank, count);
    FinalRoutes(E, n, src, s, vis, rank, count);
    FinalParents(E, n, src, s, vis, rank, count);
  }

  /** The path recovery after the rounds: walk `padre` back from the destination
      when its distance is finite, and pair up consecutive nodes. */
  method RecoverPath(dist: array<Dist>, padre: array<Option<nat>>, visitado: array<bool>, aristas: seq<Edge>,
                     origen: nat, destino: nat, ghost rank: seq<nat>, ghost count: nat)
    returns (camino: seq<nat>, caminoAristas: seq<(nat, nat)>)
    requires dist.Length == visitado.Length && padre.Length == visitado.Length && destino < visitado.Length
    requires EdgesWithin(aristas, visitado.Length)
    requires Inv(aristas, visitado.Length, origen, Tables(dist[..], padre[..]), visitado[..], rank, count)
    requires forall v :: 0 <= v < visitado.Length ==> (visitado[v] <==> dist[v].Fin?)
    ensures ReportedPath(aristas, visitado.Length, origen, destino, dist[..], padre[..], camino, caminoAristas)
  {
    ghost var n := visitado.Length;
    ghost var F := Tables(dist[..], padre[..]);
    camino := [];
    caminoAristas := [];
    if dist[destino].Fin? {
      ParentsEarlier(aristas, n, origen, F, visitado[..], rank, count);
      camino := WalkParents(padre, destino, visitado[..], rank);
      ghost var es := ChainIsRoute(aristas, n, origen, F, visitado[..], rank, count, camino);
      caminoAristas := PathEdges(camino);
    }
  }

  /** The tables before the first round: every distance Infinity but the origin's
      0, no parents, nothing settled. */
  method Tables0(n: nat, aristas: seq<Edge>, origen: nat)
    returns (dist: array<Dist>, padre: array<Option<nat>>, visitado: array<bool>)
    requires EdgesWithin(aristas, n) && origen < n
    ensures fresh(dist) && fresh(padre) && fresh(visitado)
    ensures dist.Length == n && padre.Length == n && visitado.Length == n
    ensures Tables(dist[..], padre[..]) == Start(n, origen) && visitado[..] == NoneVisited(n)
  {
    dist := new Dist[n](_ => Inf);
    padre := new Option<nat>[n](_ => None);
    visitado := new bool[n](_ => false);
    dist[origen] := Fin(0);
    assert dist[..] == Start(n, origen).dist;
    assert padre[..] == Start(n, origen).padre && visitado[..] == NoneVisited(n);
  }

  /** `calcularDijkstra` on n nodes. It refuses an empty graph or one without
      edges. Otherwise every distance is the least route cost from the origin
      (Inf exactly when no route exists), parents realise those costs, and the
      path to the destination is a cheapest route. The ghost `rounds` are the
      rounds the loop made, from the initial tables to the final ones; the
      snapshots and the log are exactly those of these rounds. */
  method Dijkstra(n: nat, aristas: seq<Edge>, origen: nat, destino: nat) returns (r: Outcome, ghost rounds: seq<Settlement>)
    requires EdgesWithin(aristas, n) && NonNegWeights(aristas)
    requires n > 0 ==> origen < n && destino < n
    ensures r.Refused? <==> n == 0 || aristas == []
    ensures r.Ran? ==>
      && ShortestTables(aristas, n, origen, r.dist, r.padre, r.visitado)
      && ReportedPath(aristas, n, origen, destino, r.dist, r.padre, r.camino, r.caminoAristas)
      && |r.log| == |Settled(r.visitado)| <= n
      && Traced(aristas, n, Start(n, origen), NoneVisited(n), rounds, Tables(r.dist, r.padre), r.visitado,
                r.snapshots, r.log)
      && LogOk(r.log, r.visitado, r.dist, r.padre)
      && SnapsOk(aristas, n, r.snapshots, r.visitado)
  {
    rounds := [];
    if n == 0 || aristas == [] {
      return Refused, rounds;
    }
    var dist, padre, visitado := Tables0(n, aristas, origen);
    var snapshots, log;
    ghost var rank, count;
    snapshots, log, rounds, rank, count := Rounds(dist, padre, visitado, aristas, origen);
    var camino, caminoAristas := RecoverPath(dist, padre, visitado, aristas, origen, destino, rank, count);
    var d, p, v := dist[..], padre[..], visitado[..];
    FinalTables(aristas, n, origen, Tables(d, p), v, rank, count);
    r := Ran(d, p, v, snapshots, log, camino, caminoAristas);
  }
}
