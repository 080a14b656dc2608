/** The canvas editor shared by both components: clicks that place nodes and join two
    selected nodes by an edge, and the undo/redo history of those actions
    (`quesobueno/floyd.component.ts`, `dijkstra/dijkstra.component.ts`). */
module History {
  import opened Distance
  import opened Graph

  /** An entry of `acciones`: tipo "nodo" or "arista" with its data. */
  datatype Action = AddedNode(node: Node) | AddedEdge(edge: Edge)

  /** Which weights the edge prompt accepts: any number (Floyd), or only numbers
      that are not negative (Dijkstra). */
  datatype WeightPolicy = AnyNumber | NonNegative

  /** The weight as parsed from the prompt; None is NaN. */
  predicate Admits(policy: WeightPolicy, peso: Option<int>)
  {
    peso.Some? && (policy == NonNegative ==> peso.value >= 0)
  }

  function Reverse<T>(s: seq<T>): (r: seq<T>)
    ensures |r| == |s|
  {
    if s == [] then [] else Reverse(s[1..]) + [s[0]]
  }

  lemma {:induction false} ReverseSnoc<T>(s: seq<T>, x: T)
    ensures Reverse(s + [x]) == [x] + Reverse(s)
    decreases |s|
  {
    if s != [] {
      assert (s + [x])[1..] == s[1..] + [x];
      ReverseSnoc(s[1..], x);
    } else {
      assert Reverse([x]) == Reverse([]) + [x];
    }
  }

  // ---------------------------------------------------------------------------
  // Replaying actions

  /** The nodes a sequence of actions creates, in order. */
  function NodesOf(acts: seq<Action>): seq<Node>
  {
    if acts == [] then []
    else
      var rest := NodesOf(acts[..|acts| - 1]);
      match acts[|acts| - 1]
      case AddedNode(nd) => rest + [nd]
      case AddedEdge(_) => rest
  }

  /** The edges a sequence of actions creates, in order. */
  function EdgesOf(acts: seq<Action>): seq<Edge>
  {
    if acts == [] then []
    else
      var rest := EdgesOf(acts[..|acts| - 1]);
      match acts[|acts| - 1]
      case AddedNode(_) => rest
      case AddedEdge(e) => rest + [e]
  }

  /** What the click handler guarantees of an action taken while `nodos` exist: a
      new node is named after the count, an edge joins two distinct existing nodes
      with an admitted weight. */
  predicate Fits(nodos: seq<Node>, a: Action, policy: WeightPolicy)
  {
    match a
    case AddedNode(nd) => nd.nombre == NodeName(|nodos|)
    case AddedEdge(e) =>
      e.from < |nodos| && e.to < |nodos| && e.from != e.to && Admits(policy, Some(e.peso))
  }

  /** Every action fits the nodes created before it. */
  predicate WellFormed(acts: seq<Action>, policy: WeightPolicy)
  {
    acts == [] ||
    (WellFormed(acts[..|acts| - 1], policy) && Fits(NodesOf(acts[..|acts| - 1]), acts[|acts| - 1], policy))
  }

  lemma {:induction false} WellFormedPrefix(X: seq<Action>, Y: seq<Action>, policy: WeightPolicy)
    requires WellFormed(X + Y, policy)
    ensures WellFormed(X, policy)
    decreases |Y|
  {
    if Y != [] {
      assert (X + Y)[..|X + Y| - 1] == X + Y[..|Y| - 1];
      WellFormedPrefix(X, Y[..|Y| - 1], policy);
    } else {
      assert X + Y == X;
    }
  }

  /** The graph a well-formed history builds is one the algorithms accept: edges
      join distinct existing nodes, weights obey the policy, and node t is named
      `NodeName(t)`. */
  lemma {:induction false} WellFormedGraph(acts: seq<Action>, policy: WeightPolicy)
    requires WellFormed(acts, policy)
    ensures EdgesWithin(EdgesOf(acts), |NodesOf(acts)|)
    ensures NoSelfLoops(EdgesOf(acts))
    ensures policy == NonNegative ==> NonNegWeights(EdgesOf(acts))
    ensures forall t :: 0 <= t < |NodesOf(acts)| ==> NodesOf(acts)[t].nombre == NodeName(t)
    decreases |acts|
  {
    if acts != [] {
      var P := acts[..|acts| - 1];
      WellFormedGraph(P, policy);
      match acts[|acts| - 1]
      case AddedNode(nd) =>
        assert NodesOf(acts) == NodesOf(P) + [nd];
      case AddedEdge(e) =>
        assert NodesOf(acts) == NodesOf(P);
        assert EdgesOf(acts) == EdgesOf(P) + [e];
    }
  }

  // ---------------------------------------------------------------------------
  // The editor's state as a value

  /** `nodos`, `aristas`, `acciones`, `rehacerAcciones` and `seleccion1`. */
  datatype Store = Store(nodos: seq<Node>, aristas: seq<Edge>, acciones: seq<Action>,
                         rehacer: seq<Action>, seleccion: Option<nat>)

  /** The timeline: the actions done, then the undone ones in the order they were
      first done. */
  function Timeline(s: Store): seq<Action>
  {
    s.acciones + Reverse(s.rehacer)
  }

  /** The lists are the replay of the done actions, and the whole timeline is
      well formed. */
  predicate Consistent(s: Store, policy: WeightPolicy)
  {
    s.nodos == NodesOf(s.acciones) && s.aristas == EdgesOf(s.acciones) && WellFormed(Timeline(s), policy)
  }

  /** `guardarAccion`: pushes the action and forgets the undone ones. */
  function Recorded(s: Store, a: Action): Store
  {
    s.(acciones := s.acciones + [a], rehacer := [])
  }

  /** JavaScript's `pop`, which leaves an empty array alone. */
  function Pop<T>(s: seq<T>): seq<T>
  {
    if s == [] then [] else s[..|s| - 1]
  }

  /** `undo`. */
  function Undone(s: Store): Store
  {
    if s.acciones == [] then s
    else
      var a := s.acciones[|s.acciones| - 1];
      var s1 := s.(acciones := s.acciones[..|s.acciones| - 1], rehacer := s.rehacer + [a]);
      match a
      case AddedNode(_) => s1.(nodos := Pop(s.nodos))
      case AddedEdge(_) => s1.(aristas := Pop(s.aristas))
  }

  /** `redo`. */
  function Redone(s: Store): Store
  {
    if s.rehacer == [] then s
    else
      var a := s.rehacer[|s.rehacer| - 1];
      var s1 := s.(acciones := s.acciones + [a], rehacer := s.rehacer[..|s.rehacer| - 1]);
      match a
      case AddedNode(nd) => s1.(nodos := s.nodos + [nd])
      case AddedEdge(e) => s1.(aristas := s.aristas + [e])
  }

  /** What a click did. */
  datatype Outcome = NodePlaced | FirstSelected | SameNodeSkipped | BadWeight | NoDirection | EdgeAdded
                   | Crashed

  /** The edge chosen at the direction prompt: "1" first to second node, "2" the
      other way, "3" both ways; any other answer, none. */
  function DirectedEdge(a: nat, b: nat, peso: int, dir: string): Option<Edge>
  {
    if dir == "1" then Some(Edge(a, b, peso, Forward))
    else if dir == "2" then Some(Edge(b, a, peso, Forward))
    else if dir == "3" then Some(Edge(a, b, peso, Both))
    else None
  }

  /** A click on the canvas: `hit` is the node under the pointer, if any; `peso` and
      `dir` are the answers to the two prompts. A selected node that an undo has
      since removed makes the direction prompt read a missing node, which throws. */
  function Clicked(s: Store, policy: WeightPolicy, hit: Option<nat>, x: int, y: int,
                   peso: Option<int>, dir: string): (Store, Outcome)
  {
    if hit.None? then
      var nd := Node(NodeName(|s.nodos|), x, y);
      (Recorded(s.(nodos := s.nodos + [nd]), AddedNode(nd)), NodePlaced)
    else if s.seleccion.None? then
      (s.(seleccion := hit), FirstSelected)
    else if s.seleccion.value == hit.value then
      (s.(seleccion := None), SameNodeSkipped)
    else if !Admits(policy, peso) then
      (s.(seleccion := None), BadWeight)
    else if s.seleccion.value >= |s.nodos| then
      (s, Crashed)
    else
      match DirectedEdge(s.seleccion.value, hit.value, peso.value, dir)
      case None => (s.(seleccion := None), NoDirection)
      case Some(e) => (Recorded(s.(aristas := s.aristas + [e], seleccion := None), AddedEdge(e)), EdgeAdded)
  }

  // ---------------------------------------------------------------------------
  // Properties of the history

  /** Undo never changes the timeline; it only moves the boundary. */
  lemma UndoKeepsTimeline(s: Store)
    ensures Timeline(Undone(s)) == Timeline(s)
  {
    if s.acciones != [] {
      var a := s.acciones[|s.acciones| - 1];
      var P := s.acciones[..|s.acciones| - 1];
      assert Undone(s).acciones == P && Undone(s).rehacer == s.rehacer + [a];
      ReverseSnoc(s.rehacer, a);
      assert s.acciones == P + [a];
      calc {
        Timeline(Undone(s));
        P + ([a] + Reverse(s.rehacer));
        (P + [a]) + Reverse(s.rehacer);
      }
    }
  }

  /** Redo never changes the timeline; it only moves the boundary. */
  lemma RedoKeepsTimeline(s: Store)
    ensures Timeline(Redone(s)) == Timeline(s)
  {
    if s.rehacer != [] {
      var a := s.rehacer[|s.rehacer| - 1];
      var R := s.rehacer[..|s.rehacer| - 1];
      assert Redone(s).acciones == s.acciones + [a] && Redone(s).rehacer == R;
      ReverseSnoc(R, a);
      assert s.rehacer == R + [a];
      calc {
        Timeline(s);
        s.acciones + ([a] + Reverse(R));
        (s.acciones + [a]) + Reverse(R);
      }
    }
  }

  lemma ConsistentEmpty(policy: WeightPolicy)
    ensures Consistent(Store([], [], [], [], None), policy)
  {
  }

  lemma UndoConsistent(s: Store, policy: WeightPolicy)
    requires Consistent(s, policy)
    ensures Consistent(Undone(s), policy)
  {
    UndoKeepsTimeline(s);
  }

  lemma RedoConsistent(s: Store, policy: WeightPolicy)
    requires Consistent(s, policy)
    ensures Consistent(Redone(s), policy)
  {
    RedoKeepsTimeline(s);
    if s.rehacer != [] {
      var a := s.rehacer[|s.rehacer| - 1];
      assert (s.acciones + [a])[..|s.acciones|] == s.acciones;
    }
  }

  /** Recording an action that fits the current nodes extends a consistent editor's
      replay by that action. */
  lemma Appended(s: Store, a: Action, policy: WeightPolicy)
    requires Consistent(s, policy) && Fits(s.nodos, a, policy)
    ensures var acts := s.acciones + [a];
      && WellFormed(acts, policy)
      && NodesOf(acts) == (if a.AddedNode? then s.nodos + [a.node] else s.nodos)
      && EdgesOf(acts) == (if a.AddedEdge? then s.aristas + [a.edge] else s.aristas)
  {
    WellFormedPrefix(s.acciones, Reverse(s.rehacer), policy);
    assert (s.acciones + [a])[..|s.acciones|] == s.acciones;
  }

  lemma ClickConsistent(s: Store, policy: WeightPolicy, hit: Option<nat>, x: int, y: int, peso: Option<int>, dir: string)
    requires Consistent(s, policy) && (hit.Some? ==> hit.value < |s.nodos|)
    ensures Consistent(Clicked(s, policy, hit, x, y, peso, dir).0, policy)
  {
    var r := Clicked(s, policy, hit, x, y, peso, dir).0;
    if hit.None? {
      var a := AddedNode(Node(NodeName(|s.nodos|), x, y));
      Appended(s, a, policy);
      assert r == Store(s.nodos + [a.node], s.aristas, s.acciones + [a], [], s.seleccion);
      assert Timeline(r) == s.acciones + [a];
    } else if s.seleccion.Some? && s.seleccion.value != hit.value && Admits(policy, peso)
              && s.seleccion.value < |s.nodos| {
      var d := DirectedEdge(s.seleccion.value, hit.value, peso.value, dir);
      if d.Some? {
        var a := AddedEdge(d.value);
        Appended(s, a, policy);
        assert r == Store(s.nodos, s.aristas + [d.value], s.acciones + [a], [], None);
        assert Timeline(r) == s.acciones + [a];
      }
    }
  }

  /** Redo right after undo restores the state. */
  lemma RedoUndoes(s: Store, policy: WeightPolicy)
    requires Consistent(s, policy) && s.acciones != []
    ensures Redone(Undone(s)) == s
  {
    var a := s.acciones[|s.acciones| - 1];
    var P := s.acciones[..|s.acciones| - 1];
    assert P + [a] == s.acciones;
    match a
    case AddedNode(nd) =>
      assert s.nodos == NodesOf(P) + [nd];
    case AddedEdge(e) =>
      assert s.aristas == EdgesOf(P) + [e];
  }

  /** Undo right after redo restores the state. */
  lemma UndoRedoes(s: Store)
    requires s.rehacer != []
    ensures Undone(Redone(s)) == s
  {
    var a := s.rehacer[|s.rehacer| - 1];
    assert s.rehacer[..|s.rehacer| - 1] + [a] == s.rehacer;
  }

  /** Undo directly after a click that added an edge removes exactly that edge;
      redo then brings it back. */
  lemma UndoAfterEdge(s: Store, policy: WeightPolicy, hit: Option<nat>, x: int, y: int, peso: Option<int>, dir: string)
    requires Clicked(s, policy, hit, x, y, peso, dir).1 == EdgeAdded
    ensures var r := Clicked(s, policy, hit, x, y, peso, dir).0;
      && Undone(r).nodos == s.nodos && Undone(r).aristas == s.aristas && Undone(r).acciones == s.acciones
      && Redone(Undone(r)).aristas == r.aristas
  {
  }

  /** Any new action empties the redo stack, so redo is then a no-op. */
  lemma ActionClearsRedo(s: Store, policy: WeightPolicy, hit: Option<nat>, x: int, y: int, peso: Option<int>, dir: string)
    requires Clicked(s, policy, hit, x, y, peso, dir).1 in {NodePlaced, EdgeAdded}
    ensures Redone(Clicked(s, policy, hit, x, y, peso, dir).0) == Clicked(s, policy, hit, x, y, peso, dir).0
  {
  }

  /** A consistent editor always holds a graph the algorithms accept. */
  lemma ConsistentGraph(s: Store, policy: WeightPolicy)
    requires Consistent(s, policy)
    ensures EdgesWithin(s.aristas, |s.nodos|) && NoSelfLoops(s.aristas)
    ensures policy == NonNegative ==> NonNegWeights(s.aristas)
    ensures forall t :: 0 <= t < |s.nodos| ==> s.nodos[t].nombre == NodeName(t)
  {
    WellFormedPrefix(s.acciones, Reverse(s.rehacer), policy);
    WellFormedGraph(s.acciones, policy);
  }

  // ---------------------------------------------------------------------------
  // The editor object

  class GraphStore {
    var nodos: seq<Node>
    var aristas: seq<Edge>
    var acciones: seq<Action>
    var rehacer: seq<Action>
    var seleccion1: Option<nat>
    const policy: WeightPolicy

    function Value(): Store
      reads this
    {
      Store(nodos, aristas, acciones, rehacer, seleccion1)
    }

    ghost predicate Valid()
      reads this
    {
      Consistent(Value(), policy)
    }

    constructor (policy: WeightPolicy)
      ensures this.policy == policy && Value() == Store([], [], [], [], None) && Valid()
    {
      this.policy := policy;
      nodos, aristas, acciones, rehacer, seleccion1 := [], [], [], [], None;
    }

    method Record(a: Action)
      modifies this
      ensures Value() == Recorded(old(Value()), a)
    {
      acciones := acciones + [a];
      rehacer := [];
    }

    method Undo()
      requires Valid()
      modifies this
      ensures Value() == Undone(old(Value())) && Valid()
    {
      UndoConsistent(Value(), policy);
      if acciones == [] {
        return;
      }
      var a := acciones[|acciones| - 1];
      acciones := acciones[..|acciones| - 1];
      rehacer := rehacer + [a];
      match a
      case AddedNode(_) =>
        if nodos != [] {
          nodos := nodos[..|nodos| - 1];
        }
      case AddedEdge(_) =>
        if aristas != [] {
          aristas := aristas[..|aristas| - 1];
        }
    }

    method Redo()
      requires Valid()
      modifies this
      ensures Value() == Redone(old(Value())) && Valid()
    {
      RedoConsistent(Value(), policy);
      if rehacer == [] {
        return;
      }
      var a := rehacer[|rehacer| - 1];
      rehacer := rehacer[..|rehacer| - 1];
      acciones := acciones + [a];
      match a
      case AddedNode(nd) => nodos := nodos + [nd];
      case AddedEdge(e) => aristas := aristas + [e];
    }

    /** The click handler. */
    method Click(hit: Option<nat>, x: int, y: int, peso: Option<int>, dir: string) returns (outcome: Outcome)
      requires Valid() && (hit.Some? ==> hit.value < |nodos|)
      modifies this
      ensures (Value(), outcome) == Clicked(old(Value()), policy, hit, x, y, peso, dir) && Valid()
    {
      ClickConsistent(Value(), policy, hit, x, y, peso, dir);
      if hit.None? {
        var nd := Node(NodeName(|nodos|), x, y);
        nodos := nodos + [nd];
        Record(AddedNode(nd));
        return NodePlaced;
      }
      if seleccion1.None? {
        seleccion1 := hit;
        return FirstSelected;
      }
      if seleccion1.value != hit.value {
        if !Admits(policy, peso) {
          seleccion1 := None;
          return BadWeight;
        }
        if seleccion1.value >= |nodos| {
          return Crashed;
        }
        var e := DirectedEdge(seleccion1.value, hit.value, peso.value, dir);
        if e.Some? {
          aristas := aristas + [e.value];
          Record(AddedEdge(e.value));
          seleccion1 := None;
          return EdgeAdded;
        }
        seleccion1 := None;
        return NoDirection;
      }
      seleccion1 := None;
      outcome := SameNodeSkipped;
    }
  }
}
