# MODELO-REDES: shortest paths on a drawn graph, in Dafny

MODELO-REDES is an Angular web application for teaching network models. Three of
its pages compute shortest paths.

- `quesobueno` (Floyd–Warshall). The page has two inputs: a matrix editor whose
  cells may be numbers, blanks, `∞` or `inf`, and a canvas where nodes are placed
  and joined by weighted edges. The canvas graph can be copied into the editor.
  Floyd–Warshall runs in place on the distance matrix, keeps a successor table
  `next` and records the matrix after each round. Routes are rebuilt by following
  `next`, and the route between two chosen nodes is highlighted on the canvas by
  node name. Canvas actions can be undone and redone.
- `dijkstra`. The user draws a graph with non-negative weights and picks an origin
  and a destination. The page runs array-based Dijkstra, which keeps `dist`,
  `padre` and `visitado`. It records one snapshot per edge examined and one log row
  per settled node, then walks `padre` back from the destination to report the path
  and its edges. Canvas actions can be undone and redone.
- `cucaracha`. A plain Floyd pass over a copy of a matrix that starts as 0 on the
  diagonal and `Infinity` elsewhere.

Modules:

- `Distance`: the numbers the pages compute with. `Dist` is `Fin(int)` or `Inf`
  (JavaScript's `Infinity`). `+`, `<` and `Math.min` treat `Infinity` as JavaScript
  does.
- `Matrix`: square matrices as nested sequences, and how a Dafny `array2` maps to
  one.
- `Graph`: nodes, directed and two-way edges, the rule that picks the node an edge
  leads to, canvas node names, and the pairs of a path.
- `FloydSpec`: Floyd–Warshall as a pure specification.
  - The source's in-place, row-major relaxation is written as a fold (`Cell`, `Row`,
    `Pass`, `Passes`, `Run`).
  - With non-negative entries it equals the textbook round-by-round recurrence
    (`Steps`, `Delta`).
  - From there: the result is the length of a shortest walk, and every successor
    walk realises it.
- `Floyd`: the `quesobueno` component. The algorithm is imperative over `array2`
  buffers and proved equal to `FloydSpec.Run`. It also covers route reconstruction,
  reading the matrix editor, building the matrix from the canvas, both ways of
  running the algorithm, and highlighting a route. Both run handlers list every
  route before they store the run, so a run whose listing throws or never ends
  (possible with negative weights) is `Halted`, not stored.
- `History`: the canvas editor that both pages share. Its state is a value
  (`Store`), with pure `Undone`, `Redone` and `Clicked`. The class `GraphStore`
  holds the editor's lists as fields and updates them in place.
- `Dijkstra`: the `dijkstra` computation over arrays, proved against invariants.
  These give shortest distances, parents that lie on shortest routes, and the
  reported path. The run also returns its rounds as a ghost history (`Settlement`:
  the node settled, the tables and the flags before it). The snapshots and the log
  are stated exactly as functions of that history, and the history is the only
  one a run from the initial tables can have (`RunDetermined`).
- `PlainFloyd`: the `cucaracha` component.
  - `FloydOnJsonCopy` models the copy it actually makes; see Findings.
  - `FloydOnCopy` is the corrected copy that keeps `Infinity`.
  - The class `CanvasFloyd` holds the component's fields and runs the copy as written.

## Model

Source paths are relative to the repository root.

| member | source | states |
|---|---|---|
| Graph.Neighbour | src/app/dijkstra/dijkstra.component.ts:185-191 | The node an edge leads to from u is `Some(b)` exactly when the edge links u to b: a forward edge only from its tail, a two-way edge from either end. |
| Graph.PathEdges | src/app/dijkstra/dijkstra.component.ts:221-225 | The highlighted edges are the consecutive pairs of the path: one fewer than its nodes, none for an empty path. |
| Graph.NodeName | src/app/dijkstra/dijkstra.component.ts:271 | A new node is named by a single character; while fewer than 0xD800 − 65 nodes exist, it is the character with code 65 plus their number. |
| Graph.NodeNamesDistinct | src/app/quesobueno/floyd.component.ts:295 | Nodes placed at different positions of the list get different names (below the surrogate range). |
| History.WellFormedGraph | src/app/quesobueno/floyd.component.ts:282-337 | Replaying well-formed actions gives edges between existing nodes, no self-loops, node t named `NodeName(t)`, and non-negative weights under the Dijkstra policy. |
| History.UndoKeepsTimeline | src/app/quesobueno/floyd.component.ts:357-365 | Undo never changes the sequence of done actions followed by the undone ones in their original order. |
| History.RedoKeepsTimeline | src/app/quesobueno/floyd.component.ts:367-375 | Redo never changes that sequence either; both only move the boundary between done and undone. |
| History.ConsistentEmpty | src/app/quesobueno/floyd.component.ts:33-38 | The empty editor is consistent: its lists are the replay of no actions. |
| History.UndoConsistent | src/app/quesobueno/floyd.component.ts:357-365 | Undo keeps `nodos` and `aristas` equal to the replay of `acciones`, and the timeline well formed. |
| History.RedoConsistent | src/app/quesobueno/floyd.component.ts:367-375 | Redo keeps the editor consistent: the re-added node or edge is the one the replay gives. |
| History.ClickConsistent | src/app/quesobueno/floyd.component.ts:282-337 | Any click keeps the editor consistent. |
| History.RedoUndoes | src/app/quesobueno/floyd.component.ts:357-375 | On a consistent editor with something to undo, redo after undo restores the exact state. |
| History.UndoRedoes | src/app/dijkstra/dijkstra.component.ts:326-344 | With something to redo, undo after redo restores the exact state. |
| History.UndoAfterEdge | src/app/dijkstra/dijkstra.component.ts:294-297 | Undo right after adding an edge removes exactly that edge and its action; redo puts it back. |
| History.ActionClearsRedo | src/app/dijkstra/dijkstra.component.ts:36-39 | After a click that records a node or an edge, the redo stack is empty, so redo does nothing. |
| History.ConsistentGraph | src/app/dijkstra/dijkstra.component.ts:264-302 | A consistent editor's graph has edges within range and no self-loops; under the Dijkstra policy (weight `>= 0`, line 283) its weights are non-negative. |
| History.GraphStore.constructor | src/app/quesobueno/floyd.component.ts:33-38 | A new editor has no nodes, edges, actions, redo entries or selection, under the given weight policy. |
| History.GraphStore.Record | src/app/quesobueno/floyd.component.ts:352-355 | `guardarAccion` appends the action and clears the redo stack. |
| History.GraphStore.Undo | src/app/quesobueno/floyd.component.ts:357-365 | `undo` updates the fields to `Undone` of the old state and keeps the editor consistent. |
| History.GraphStore.Redo | src/app/quesobueno/floyd.component.ts:367-375 | `redo` updates the fields to `Redone` of the old state and keeps the editor consistent. |
| History.GraphStore.Click | src/app/quesobueno/floyd.component.ts:282-337 | A click places a named node, selects, deselects, rejects the weight, rejects the direction or adds the chosen edge, as `Clicked` states; the editor stays consistent. |
| FloydSpec.NoRelayThroughUnreachable | src/app/quesobueno/floyd.component.ts:122-123 | A relay through k that is unreachable from i, or cannot reach j, never changes the cell. |
| FloydSpec.CellEffect | src/app/quesobueno/floyd.component.ts:122-126 | A cell changes only when the relayed length is strictly shorter. It then takes that length and `next[i][k]`, and no other cell changes. |
| FloydSpec.PassesDecrease | src/app/quesobueno/floyd.component.ts:119-128 | No entry ever increases during the rounds. |
| FloydSpec.StepsDist | src/app/quesobueno/floyd.component.ts:119-128 | The distances of the textbook rounds are the recurrence `Delta`. |
| FloydSpec.DeltaNonNeg | src/app/quesobueno/floyd.component.ts:119-128 | With non-negative input, every round's matrix is non-negative. |
| FloydSpec.DeltaDecreases | src/app/quesobueno/floyd.component.ts:119-128 | Each entry of the recurrence is at most the input entry. |
| FloydSpec.PassesAreSteps | src/app/quesobueno/floyd.component.ts:119-128 | With non-negative entries, the in-place row-major rounds equal the textbook rounds, successor table included. |
| FloydSpec.RunIsDelta | src/app/quesobueno/floyd.component.ts:109-132 | The run's distances are the recurrence after all n rounds. |
| FloydSpec.DeltaTriangle | src/app/quesobueno/floyd.component.ts:119-128 | After k rounds, every entry satisfies the triangle inequality through each of the first k nodes. |
| FloydSpec.FixedPoint | src/app/quesobueno/floyd.component.ts:109-132 | The result satisfies the triangle inequality through every node, so no further relaxation helps. |
| FloydSpec.WalkFor | src/app/quesobueno/floyd.component.ts:119-128 | Builds a walk from i to j in the input whose weight is the entry after k rounds, whenever that entry is finite. |
| FloydSpec.DeltaBelowWalks | src/app/quesobueno/floyd.component.ts:119-128 | No walk of the input weighs less than the final entry for its ends. |
| FloydSpec.ShortestWalks | src/app/quesobueno/floyd.component.ts:109-132 | Entry (i, j) of the result is the least weight of a walk from i to j: no walk is lighter, and a finite entry is some walk's weight. |
| FloydSpec.StartSuccInv | src/app/quesobueno/floyd.component.ts:111-116 | The initial `next` is set exactly on the finite off-diagonal cells, pointing at j itself, along an input edge. |
| FloydSpec.StepSuccInv | src/app/quesobueno/floyd.component.ts:123-126 | A round keeps that invariant: `next` is set exactly on finite off-diagonal cells, and its entry is an input edge followed by a remaining distance no longer than the cell. |
| FloydSpec.StepsSuccInv | src/app/quesobueno/floyd.component.ts:111-128 | The successor invariant holds after every round. |
| FloydSpec.StepsNonNeg | src/app/quesobueno/floyd.component.ts:119-128 | Distances stay non-negative through all rounds. |
| FloydSpec.SuccessorStep | src/app/quesobueno/floyd.component.ts:125 | For i ≠ j with a finite result, `next[i][j]` is some m with an input edge (i, m) and dist[i][j] = D[i][m] + dist[m][j]. |
| FloydSpec.SuccWalkWeight | src/app/quesobueno/floyd.component.ts:99-107 | A successor walk from i that reaches j weighs exactly the reported distance: reconstruction yields a shortest route. |
| FloydSpec.SuccWalkStaysFinite | src/app/quesobueno/floyd.component.ts:99-107 | Following `next` from a finite entry never meets a null before j. |
| Floyd.Snapshots | src/app/quesobueno/floyd.component.ts:119-130 | One matrix is recorded per round, n in all. |
| Floyd.RelaxCell | src/app/quesobueno/floyd.component.ts:122-126 | The buffers after the cell update hold `FloydSpec.Cell` of the state before. |
| Floyd.Relax | src/app/quesobueno/floyd.component.ts:120-128 | One round over all (i, j) leaves the buffers holding `FloydSpec.Pass` of the state before. |
| Floyd.FloydWarshall | src/app/quesobueno/floyd.component.ts:109-132 | Afterwards `dist` and the fresh `next` hold `Run` of the input, and the snapshots are the matrices after each round. |
| Floyd.ReconstructRoute | src/app/quesobueno/floyd.component.ts:99-107 | There are four outcomes. Empty exactly when `next[i][j]` is null. Otherwise the names along the successor walk from i to j. A crash when the walk meets a null. Non-termination once the walk has repeated a node. |
| Floyd.SuccWalkDistinct | src/app/quesobueno/floyd.component.ts:99-107 | With positive off-diagonal weights, successor walks from a finite entry never repeat a node, and the distance to j strictly falls along them. |
| Floyd.TrimSlices | src/app/quesobueno/floyd.component.ts:160 | `trim` returns a slice of its input with only spaces before and after it. |
| Floyd.TrimTwice | src/app/quesobueno/floyd.component.ts:160 | Trimmed text has a non-space at each end, and trimming twice changes nothing. |
| Floyd.ParseRules | src/app/quesobueno/floyd.component.ts:162-176 | The diagonal reads as 0. Off the diagonal a cell reads as Infinity exactly when it is blank, `∞`, `inf` in any case, or text that does not parse; otherwise as its number. |
| Floyd.ReadMatrix | src/app/quesobueno/floyd.component.ts:163-176 | The fresh n×n buffer holds the matrix that `ParseRules` describes. |
| Floyd.CellsRoundTrip | src/app/quesobueno/floyd.component.ts:409-411 | Writing a matrix to cells (Infinity as a blank) and reading it back gives the same matrix exactly when its diagonal is 0. |
| Floyd.DecimalInjective | src/app/quesobueno/floyd.component.ts:143 | Different numbers have different decimal texts. |
| Floyd.DefaultNamesDistinct | src/app/quesobueno/floyd.component.ts:143 | Default names "N1", "N2", … are distinct, non-empty and already trimmed. |
| Floyd.EditedNamesTrimmed | src/app/quesobueno/floyd.component.ts:160 | A name is used trimmed, unless it is missing or only spaces; then it becomes "N" followed by its position plus one. |
| Floyd.WithEdgeCell | src/app/quesobueno/floyd.component.ts:384-389 | Adding an edge lowers to its weight every cell it links (both directions for a two-way edge) and leaves all other cells alone. |
| Floyd.GraphMatrixCell | src/app/quesobueno/floyd.component.ts:377-392 | Each cell of the graph matrix is the least of the initial cell and the weights of the edges linking its ends. |
| Floyd.CanvasMatrixRoundTrip | src/app/quesobueno/floyd.component.ts:401-411 | A graph without self-loops gives a matrix with zero diagonal, which survives the trip through the editor's cells unchanged. |
| Floyd.GraphMatrixNonNeg | src/app/quesobueno/floyd.component.ts:383-390 | Non-negative edge weights give a non-negative matrix. |
| Floyd.EnterEdge | src/app/quesobueno/floyd.component.ts:384-389 | The buffer after entering one edge holds `WithEdge` of the matrix before. |
| Floyd.MatrixFromGraph | src/app/quesobueno/floyd.component.ts:377-392 | Returns the node names in order and a fresh buffer that holds the graph matrix. |
| Floyd.SuccWalksAgree | src/app/quesobueno/floyd.component.ts:99-107 | Two successor walks from the same node agree wherever both are defined. |
| Floyd.StuckWalk | src/app/quesobueno/floyd.component.ts:99-107 | A walk that has not reached j and has n nodes or meets a null: no walk from its start reaches j, so that reconstruction never yields a route. |
| Floyd.WalkReaches | src/app/quesobueno/floyd.component.ts:99-107 | With positive weights, a successor walk from a finite entry extends to one that stands on j within n nodes. |
| Floyd.PositiveListingEnds | src/app/quesobueno/floyd.component.ts:182-192 | With positive weights, every route of the result list ends. |
| Floyd.ListRoutes | src/app/quesobueno/floyd.component.ts:182-192 | Completes exactly when every pair of distinct nodes at finite distance has a route that ends; otherwise stops at the first such pair in row order whose reconstruction throws or never ends. |
| Floyd.RunAndList | src/app/quesobueno/floyd.component.ts:178-196 | Runs the algorithm, then the listing; stores the run exactly when the listing completes, and otherwise keeps only the per-round tables and the pair where it stopped. |
| Floyd.RunFromMatrix | src/app/quesobueno/floyd.component.ts:152-198 | Refused exactly when the node count is not positive or differs from the number of rows. Otherwise Floyd–Warshall on the parsed cells, under the edited names; the run is stored exactly when every listed route ends, and otherwise halts at the first pair whose reconstruction throws or never ends. |
| Floyd.RunFromCanvas | src/app/quesobueno/floyd.component.ts:419-442 | Refused exactly when the canvas has no nodes. Otherwise Floyd–Warshall on the graph matrix, under the node names; stored or halted by the same rule. |
| Floyd.GenerateMatrix | src/app/quesobueno/floyd.component.ts:137-150 | Refused exactly when the node count is not positive. |
| Floyd.GeneratedMatrixIsEmptyGraph | src/app/quesobueno/floyd.component.ts:143-147 | A generated editor reads as the graph with no edges (0 on the diagonal, Infinity elsewhere) and has n distinct names. |
| Floyd.GenerateFromCanvas | src/app/quesobueno/floyd.component.ts:401-411 | Refused exactly on an empty canvas. Otherwise the editor holds the node count, the node names and the graph matrix as cells. |
| Floyd.MatrixRunAgreesWithCanvasRun | src/app/quesobueno/floyd.component.ts:401-442 | Copying the canvas into the editor and running from the matrix gives the same result as running from the canvas. |
| Floyd.NameIndex | src/app/quesobueno/floyd.component.ts:470-471 | The name map has exactly the canvas's names as keys, and each maps to a node with that name. |
| Floyd.MapNames | src/app/quesobueno/floyd.component.ts:473-483 | Mapping succeeds exactly when every route name is on the canvas, and then gives each name's index. |
| Floyd.NameIndexCanonical | src/app/quesobueno/floyd.component.ts:470-471 | When the canvas names are the default letters, the map sends each node's name back to its own index. |
| Floyd.HighlightRoute | src/app/quesobueno/floyd.component.ts:456-491 | The refusals come first: not run yet, origin equal to destination, no route. An origin or destination index beyond the last run's nodes (the selects follow the canvas, not the run) crashes, as reading `next` there throws. A shown route is the successor walk from o to d, located on the canvas by name, with its consecutive pairs as the edges. When the run came from this canvas, the route is never unmapped. |
| Floyd.LocateOnCanvas | src/app/quesobueno/floyd.component.ts:470-490 | Unmapped exactly when some route name is not on the canvas. Otherwise the indices of the names and the pairs between consecutive ones. |
| Dijkstra.Target | src/app/dijkstra/dijkstra.component.ts:184-193 | An edge examined from u leads to an unvisited node that it links from u, or to none. |
| Dijkstra.TargetNone | src/app/dijkstra/dijkstra.component.ts:193 | An edge from u is skipped only when the node it leads to is already settled. |
| Dijkstra.RelaxOneEffect | src/app/dijkstra/dijkstra.component.ts:193-200 | A skipped edge changes nothing. Otherwise only the target's entry may change: its distance is lowered, and its parent set to u, only when going through u is strictly shorter. |
| Dijkstra.SnapsCount | src/app/dijkstra/dijkstra.component.ts:184-202 | One snapshot is taken per edge that is not skipped. |
| Dijkstra.SnapsShape | src/app/dijkstra/dijkstra.component.ts:196-201 | Each snapshot records the pair (u, v) that was explored, with full-length copies of the three tables. |
| Dijkstra.InitialInv | src/app/dijkstra/dijkstra.component.ts:167-170 | All distances Infinity except 0 at the origin, no parents, nothing visited: the loop invariant holds. |
| Dijkstra.RelaxStep | src/app/dijkstra/dijkstra.component.ts:195-200 | With non-negative weights, relaxing one edge keeps the invariant. |
| Dijkstra.RoutesNotShorter | src/app/dijkstra/dijkstra.component.ts:174-210 | At the end, no route from the origin costs less than its end node's distance. |
| Dijkstra.RouteTo | src/app/dijkstra/dijkstra.component.ts:195-200 | Every settled node's distance is the cost of a route from the origin to it. |
| Dijkstra.ChainIsRoute | src/app/dijkstra/dijkstra.component.ts:213-215 | A chain of parents from the origin is a route whose cost is its last node's distance. |
| Dijkstra.SettledExactly | src/app/dijkstra/dijkstra.component.ts:204-206 | The permanent list holds exactly the visited nodes, in increasing order. |
| Dijkstra.PendingEntries | src/app/dijkstra/dijkstra.component.ts:207 | Each temporary entry is an unvisited node with its current distance and parent, listed in increasing order. |
| Dijkstra.PendingCovers | src/app/dijkstra/dijkstra.component.ts:204-208 | Every unvisited node is listed as temporary, and together the two lists cover all nodes. |
| Dijkstra.SettledMark | src/app/dijkstra/dijkstra.component.ts:182 | Marking a new node visited grows the permanent list by one. |
| Dijkstra.FinalParents | src/app/dijkstra/dijkstra.component.ts:195-200 | Every reached node but the origin has a reached parent joined to it by an edge that realises its distance. |
| Dijkstra.FinalTables | src/app/dijkstra/dijkstra.component.ts:153-210 | At the end of the loop the tables are shortest. Distance 0 at the origin. Infinity exactly for unvisited nodes. No route beats a distance, every finite distance is a route's cost, and parents lie on shortest routes. |
| Dijkstra.SelectMin | src/app/dijkstra/dijkstra.component.ts:176-179 | -1 exactly when every node is visited. Otherwise the first unvisited node of least distance. |
| Dijkstra.RelaxEdges | src/app/dijkstra/dijkstra.component.ts:184-202 | The arrays end as `RelaxUpTo` over all edges, and the snapshots are `SnapsUpTo`. |
| Dijkstra.Round | src/app/dijkstra/dijkstra.component.ts:182-202 | Visiting the selected node and relaxing its edges keeps the invariant with one more settled node. |
| Dijkstra.LogRowOf | src/app/dijkstra/dijkstra.component.ts:204-209 | The log row lists the permanent nodes and the temporary entries of the current tables. |
| Dijkstra.WalkParents | src/app/dijkstra/dijkstra.component.ts:215 | Following `padre` from the destination ends at a node without a parent. It gives the path in forward order, each node the parent of the next. |
| Dijkstra.TracedGrows | src/app/dijkstra/dijkstra.component.ts:174-209 | A recorded run extended by one more chosen round is still recorded: the round's snapshots are appended, and its log row is numbered one past the previous rows and shows the tables after it. |
| Dijkstra.Advance | src/app/dijkstra/dijkstra.component.ts:182-209 | Settling the chosen node marks it visited, leaves the tables as `RelaxUpTo` over all edges, appends that round's snapshots and one log row of the new tables numbered count + 1, and adds the round to the history. |
| Dijkstra.RoundsLoop | src/app/dijkstra/dijkstra.component.ts:174-210 | The loop keeps the invariant and the run's history. It stops after n rounds or once every unsettled node is at Infinity. |
| Dijkstra.RoundsEnd | src/app/dijkstra/dijkstra.component.ts:174-210 | When the loop stops, visited is exactly finite, the log has one row per settled node, the rows match the tables, and every snapshot is well formed. |
| Dijkstra.Rounds | src/app/dijkstra/dijkstra.component.ts:174-210 | The loop ends with the invariant and with visited equal to finite. It returns the rounds it made: a chain from the initial tables, each round settling the node the scan picks (unvisited, finite, least distance, first among equals). The snapshots are exactly those rounds' snapshots in order. The log has exactly one row per round, row q numbered q and showing the tables after round q. |
| Dijkstra.TracedLogOk | src/app/dijkstra/dijkstra.component.ts:174-209 | From the initial tables, the log of the rounds numbers its rows 1, 2, …, row q lists q permanent nodes, and the last row shows the final tables. |
| Dijkstra.TracedSnapsOk | src/app/dijkstra/dijkstra.component.ts:184-201 | Every snapshot of the rounds names a node settled by the end and an edge from it to a node then unsettled. |
| Dijkstra.ChoiceUnique | src/app/dijkstra/dijkstra.component.ts:176-179 | From the same tables and visited flags, the scan can choose only one node. |
| Dijkstra.PrefixesAgree | src/app/dijkstra/dijkstra.component.ts:174-209 | Two runs from the same state agree round by round for as long as both go on. |
| Dijkstra.NoRoundAfterFinish | src/app/dijkstra/dijkstra.component.ts:180 | A run that stopped with every unsettled node at Infinity is not outlived by another run from the same state. |
| Dijkstra.RunDetermined | src/app/dijkstra/dijkstra.component.ts:174-210 | Two runs from the same state that both stop are the same rounds, so the snapshots and log of `Dijkstra` are the only ones possible. |
| Dijkstra.Iterate | src/app/dijkstra/dijkstra.component.ts:175-209 | One pass of the outer loop keeps what the loop promises. It either stops with every unsettled node at Infinity, changing nothing, or settles the node the scan picks, adding that round to the history, its snapshots and its log row, and counts it. |
| Dijkstra.RecoverPath | src/app/dijkstra/dijkstra.component.ts:213-232 | No path for an unreachable destination. Otherwise the parent chain from the origin to the destination, a route costing exactly its distance, with its consecutive pairs as edges. |
| Dijkstra.Dijkstra | src/app/dijkstra/dijkstra.component.ts:153-235 | Refused exactly when there are no nodes or no edges. Otherwise the tables are shortest and the reported path is a cheapest route. The returned rounds run from the initial tables to the final ones; the snapshots are exactly their snapshots and the log exactly one row per round, each showing the tables after it. The rows are numbered 1, 2, … and the last shows the final tables. |
| PlainFloyd.JsonCopy | src/app/cucaracha/floyd.component.ts:80 | The copy has the input's shape; finite entries are kept and `Infinity` becomes `null`. |
| PlainFloyd.JSnapshots | src/app/cucaracha/floyd.component.ts:84-94 | One matrix is recorded per round, n in all. |
| PlainFloyd.JCellSettles | src/app/cucaracha/floyd.component.ts:87-89 | A cell update, where `null` counts as 0, never raises a cell's value. With non-negative cells it keeps them non-negative and keeps every `null`. |
| PlainFloyd.JPassesSettle | src/app/cucaracha/floyd.component.ts:84-91 | The same holds after any number of rounds. |
| PlainFloyd.JRelaxCell | src/app/cucaracha/floyd.component.ts:87-89 | The buffer after the update holds `JCell` of the matrix before. |
| PlainFloyd.JRelax | src/app/cucaracha/floyd.component.ts:85-91 | One round leaves the buffer holding `JPass` of the matrix before. |
| PlainFloyd.FloydOnJsonCopy | src/app/cucaracha/floyd.component.ts:79-98 | As written: the rounds and the result are the JSON-copy fold on the copied matrix. |
| PlainFloyd.RelaxCell | src/app/cucaracha/floyd.component.ts:87-89 | The buffer after the update holds the distances of `FloydSpec.Cell`. |
| PlainFloyd.Relax | src/app/cucaracha/floyd.component.ts:85-91 | One round leaves the buffer holding the distances of `FloydSpec.Pass`. |
| PlainFloyd.FloydOnCopy | src/app/cucaracha/floyd.component.ts:79-98 | With an `Infinity`-preserving copy, the result is `FloydSpec.Run`'s distances and the rounds are the same n snapshots as in `quesobueno`. |
| PlainFloyd.JsonCopyLosesRelays | src/app/cucaracha/floyd.component.ts:80-89 | With non-negative weights, take an i→j cell with no edge but a two-edge route i→m→j. It is `null` in every snapshot and in the result, while Floyd–Warshall gives a finite distance of at most that route's weight. |
| PlainFloyd.JsonCopyLosesRoutes | src/app/cucaracha/floyd.component.ts:80-89 | On the chain 0→1 (1), 1→2 (2), the result has `null` at (0, 2), where the true distance is finite and at most 3. |
| PlainFloyd.ShortcutAsWritten | src/app/cucaracha/floyd.component.ts:84-94 | On the graph with edges 0→2 (5) and 1→2 (1) and nothing into node 1, the run as written ends with 1 at (0, 2). |
| PlainFloyd.ShortcutDistance | src/app/cucaracha/floyd.component.ts:84-94 | On that graph the distance from 0 to 2 is 5: the run on an `Infinity`-keeping copy gives 5, as no walk is lighter than the direct edge. |
| PlainFloyd.LeastWalk | src/app/cucaracha/floyd.component.ts:84-94 | A finite walk no heavier than any other walk between the same nodes is the run's entry for them. |
| PlainFloyd.JsonCopyTakesPhantomRelays | src/app/cucaracha/floyd.component.ts:80-89 | Reading `null` as 0 also lowers finite cells: on that graph the run as written shows 1 at (0, 2), relaying through the unreachable node 1, where Floyd–Warshall gives 5. |
| PlainFloyd.CanvasFloyd.constructor | src/app/cucaracha/floyd.component.ts:18-30 | The component starts with 3 nodes and the generated 3×3 matrix, and no output. |
| PlainFloyd.CanvasFloyd.GenerarMatriz | src/app/cucaracha/floyd.component.ts:32-39 | The matrix becomes numNodos×numNodos, 0 on the diagonal and `Infinity` elsewhere; empty for a negative count. |
| PlainFloyd.CanvasFloyd.EjecutarFloydCanvas | src/app/cucaracha/floyd.component.ts:79-98 | As written, on the JSON copy: the matrix is left unchanged, the iterations are the n per-round copied matrices and the result is the last. With non-negative weights every pair without a direct edge is shown as `null` at the end. |

## Left out

- Drawing is left out: canvas rendering, arrows, background images, HTML tables and
  result strings, alerts and scrolling. These are view code. Each result-list line
  calls route reconstruction; `Floyd.ListRoutes` models whether each one ends, not
  the text it produces.
- Hit-testing is left out. `Math.hypot` against the radius is geometry on floating
  point, so the node under the pointer is a parameter (`hit`) of `Clicked`.
- Prompts and DOM reads are left out. The prompt answers, the selected origin and
  destination, and the matrix cells edited through the template are parameters.
  For `cucaracha`, the matrix given to `EjecutarFloydCanvas` is any square matrix,
  because the template's cell editing is not part of this model.
- Select-list resets are left out: `actualizarSelects`, the index resets in
  `actualizarSelectsCanvas*`, and clearing the highlighted path after a click.
  In their place `Floyd.HighlightRoute` takes any pair of indices. The canvas
  selects are refilled from the canvas nodes, so after nodes are added they may
  name indices that the last run does not have; the model covers those too.
- Weights and distances are integers, not IEEE doubles. Rounding, `NaN` arithmetic
  and `-0` are not modelled. A weight that does not parse is `None`.
- Floyd.ParseCell: a cell whose text parses as `Infinity` (or `-Infinity`) through
  `parseFloat` is read as unparseable, because the parsed value is an integer.
- Floyd.IsInfText: `toLowerCase` is modelled on ASCII letters only. Non-ASCII letters
  that lower-case to "inf" do not exist, so no cell is read differently.
- Floyd.ReconstructRoute: the source loop can run forever. The model stops after n
  steps and reports `Loops`, having proved that the walk has repeated a node by then
  (and a walk decided by the current node alone then never ends).
- Dijkstra.Dijkstra: requires non-negative weights. The Dijkstra editor only admits
  such weights (`History.ConsistentGraph` under the `NonNegative` policy).
  Negative weights, which the algorithm does not support, are not modelled.
- Dijkstra.Dijkstra: the origin and destination are required to be node indices.
  The source reads them from select lists filled with the nodes.
- PlainFloyd.CanvasFloyd.GenerarMatriz: a non-integer node count is not modelled.
  The count is an `int`.
- The `cucaracha` node placement (`onCanvasClick`) is not modelled. Its nodes
  never reach the matrix or the algorithm.
- Graph.NodeName: a code unit in the surrogate range 0xD800–0xDFFF becomes U+FFFD,
  because a Dafny string cannot hold a lone surrogate; JavaScript keeps it. The
  code is reduced modulo 2^16 as `String.fromCharCode` does. Only a canvas with
  more than 55 000 nodes reaches the surrogate range.
- Floyd.GenerateMatrix: the node count is an `int`. A non-integer count from the
  number input is not modelled; `Array.from` would truncate it.
- Floyd.RunFromMatrix: the node count is an `int`. After a non-integer count the
  source refuses the matrix, because its truncated length differs from the count;
  that case is not modelled.
- `app.routes.ts` and the component templates are not part of this model.

## Findings

| source | as written | input that shows it | evidently intended | confidence | as-written member | corrected member |
|---|---|---|---|---|---|---|
| src/app/cucaracha/floyd.component.ts:80-89 | `JSON.parse(JSON.stringify(matriz))` turns every `Infinity` into `null`, and `null` counts as 0 in `+` and `<`. With non-negative weights no `null` cell ever changes, so a pair with no direct edge stays `null` even when a route exists. | The 3×3 chain with edges 0→1 of weight 1 and 1→2 of weight 2: cell (0, 2) stays `null`, where the shortest distance is 3. | A copy that keeps `Infinity` (as the `quesobueno` page does), so the result is the Floyd–Warshall distances. | not executed | PlainFloyd.JsonCopyLosesRoutes | PlainFloyd.FloydOnCopy |
| src/app/cucaracha/floyd.component.ts:80-89 | Because `null` counts as 0, a relay through a node with no route into it costs only its second leg, so a finite cell drops below its distance. | Edges 0→2 of weight 5 and 1→2 of weight 1, nothing into node 1: round 1 computes `null + 1 < 5` and shows 1 at (0, 2), where the distance is 5. | As above: a copy that keeps `Infinity`, so no relay through an unreachable node is taken. | not executed | PlainFloyd.JsonCopyTakesPhantomRelays | PlainFloyd.FloydOnCopy |
