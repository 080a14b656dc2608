/** The graph both canvas editors build: nodes placed by clicking, and weighted edges
    that run one way or both ways between two of them. */
module Graph {
  import opened Distance

  datatype Node = Node(nombre: string, x: int, y: int)

  datatype Direction = Forward | Both

  /** `from` and `to` are positions in the node list. */
  datatype Edge = Edge(from: nat, to: nat, peso: int, direccion: Direction)

  predicate EdgesWithin(E: seq<Edge>, n: nat)
  {
    forall t :: 0 <= t < |E| ==> E[t].from < n && E[t].to < n
  }

  predicate NoSelfLoops(E: seq<Edge>)
  {
    forall t :: 0 <= t < |E| ==> E[t].from != E[t].to
  }

  predicate NonNegWeights(E: seq<Edge>)
  {
    forall t :: 0 <= t < |E| ==> E[t].peso >= 0
  }

  /** Edge e can be travelled from a to b: along it, or against it when it is
      bidirectional. */
  predicate Links(e: Edge, a: nat, b: nat)
  {
    (e.from == a && e.to == b) || (e.direccion == Both && e.from == b && e.to == a)
  }

  /** The node Dijkstra reaches over e when it stands on u, or None
      (`dijkstra.component.ts`, the `v` computed for each edge). */
  function Neighbour(e: Edge, u: nat): (v: Option<nat>)
    ensures forall b: nat :: Links(e, u, b) <==> v == Some(b)
  {
    match e.direccion
    case Forward => if u == e.from then Some(e.to) else None
    case Both => if u == e.from then Some(e.to) else if u == e.to then Some(e.from) else None
  }

  /** The consecutive pairs of a path, which the editors draw as highlighted edges. */
  method PathEdges(camino: seq<nat>) returns (pares: seq<(nat, nat)>)
    ensures |pares| == if camino == [] then 0 else |camino| - 1
    ensures forall t :: 0 <= t < |pares| ==> pares[t] == (camino[t], camino[t + 1])
  {
    pares := [];
    var i := 1;
    while i < |camino|
      invariant 1 <= i <= if camino == [] then 1 else |camino|
      invariant |pares| == i - 1
      invariant forall t :: 0 <= t < |pares| ==> pares[t] == (camino[t], camino[t + 1])
    {
      pares := pares + [(camino[i - 1], camino[i])];
      i := i + 1;
    }
  }

  /** The name the editors give to the node created when `count` nodes exist:
      `String.fromCharCode(65 + count)`, a single UTF-16 code unit. A code unit in
      the surrogate range cannot stand alone in a Dafny string; U+FFFD takes its
      place. */
  function NodeName(count: nat): (r: string)
    ensures |r| == 1
    ensures count < 0xD800 - 65 ==> r[0] as int == 65 + count
  {
    var u := (65 + count) % 0x1_0000;
    if 0xD800 <= u < 0xE000 then ['�'] else [u as char]
  }

  lemma NodeNamesDistinct(a: nat, b: nat)
    requires a < 0xD800 - 65 && b < 0xD800 - 65 && a != b
    ensures NodeName(a) != NodeName(b)
  {
    assert NodeName(a)[0] != NodeName(b)[0];
  }
}
