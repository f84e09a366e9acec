# Graph algorithm engine of the campus-map sandbox, in Dafny

This project models the algorithm core of `main.js` from the interactive graph sandbox. The graph lives in two globals: a `Map` of node ids in insertion order and a list of undirected `[u, v, weight]` edges. Every algorithm first projects them into adjacency lists and then runs over that projection. The model covers:

- `buildAdjacencyList`: each edge pushes `{v, w}` onto u's list and then `{u, w}` onto v's list (`Adjacency`).
- `dijkstra` and its guard `findShortestPath`: the sort-and-shift priority queue, the stale-entry skip, relaxation with "push only if not queued", the `break` at the end node, and the path read back through `previous` (`DijkstraState`, `Dijkstra`).
- `runTraversal`: BFS (`shift`) and DFS (`pop`) over one container of pending ids. A node is marked visited when it is popped. A neighbour is pushed unless it is visited or already pending (`Traversal`).
- `checkBipartite`: a breadth-first 1/2 colouring started from each uncoloured node in insertion order. The first clash stops everything (`Bipartite`).
- The matrix half of `displayAdjacencyMatrix`: ids sorted as strings, a V×V zero matrix, and both cells written per edge in edge order (`Matrix`).
- `setupDemoGraph`: the six-node demo map (`Demo`).

`Graphs` holds the shared vocabulary: `Graph`, `Edge`, `Neighbor`, `AdjacencyList`, `WellFormed` (distinct node ids, every endpoint a node), `Adjacent`, walks and `Reachable`.

Every algorithm comes with an independent reference it is proved against:

- The adjacency lists equal `Incident`: each node's incident entries, in edge order.
- The traversal visits exactly the `Reachable` set.
- The bipartite verdict equals the existence of a proper two-colouring (`TwoColorable`).
- The matrix cells equal the weight of the last edge joining the two nodes (`LastLink`).
- Dijkstra's reported path is a walk of the adjacency lists from start to end. Under the corrected queue policy, "found" coincides with reachability.

The priority queue is modelled with a `QueuePolicy`:

- `SkipIfQueued` is the code as written: `priorityQueue.some(...)` suppresses the push, and the old entry keeps its old distance.
- `UpdateIfQueued` is the corrected decrease-key, used under "## Findings".

`sort` followed by `shift()` is modelled as removing the first entry of least distance (`FirstMin`, `Remove`). `Array.prototype.sort` is stable, and under `SkipIfQueued` queued keys never change. So the next entry popped is the same whether the rest of the queue is kept in sorted order or in arrival order.

Conventions of `main.js` that the model keeps:

- Every edge is undirected: `buildAdjacencyList` pushes both directions.
- Parallel edges and self-loops are accepted; a later parallel edge overwrites the earlier one's matrix cell.
- The traversal marks a node visited when it is taken from the container, and pushes a neighbour only when it is neither visited nor already pending, so every node is pending at most once and visited once.
- Colours are 1 and 2, and every new component's first node gets 1.
- The traversal records only the visiting order, no predecessors.

## Model

| member | source | states |
|---|---|---|
| Adjacency.Build | main.js:42-51 | every node id gets a list, and that list is exactly the node's incident entries (`Incident`) in edge order |
| Adjacency.EmptyLists | main.js:44 | the map starts with exactly the node ids as keys, each with an empty list |
| Adjacency.AddEdge | main.js:48-49 | one edge appends `{v, w}` to u's list and `{u, w}` to v's list; no key is added and other lists are unchanged |
| Adjacency.AddEdges | main.js:46-50 | the `forEach` over the edges appends to each list that node's incident entries, first edge first |
| Adjacency.IncidentMembership | main.js:46-50 | `{b, w}` is in a's list exactly when some edge joins a and b with weight w, whichever way round it was written |
| Adjacency.Symmetric | main.js:48-49 | b lists a with weight w exactly when a lists b with weight w |
| Adjacency.AdjacentSymmetric | main.js:48-49 | adjacency over the built lists is a symmetric relation |
| Adjacency.BuildClosed | main.js:42-51 | every listed neighbour is a node and every node has a list |
| Adjacency.TotalEntries | main.js:46-50 | the lists hold 2·\|edges\| entries in all |
| Adjacency.SelfLoopTwice | main.js:48-49 | a self-loop `[u, u, w]` puts `{u, w}` twice, back to back, into u's own list |
| DijkstraState.Initial | main.js:124-129 | every distance ∞ and every predecessor null, then the start at 0 and the queue holding only the start at 0 |
| DijkstraState.FirstMin | main.js:134-135 | the entry the stable sort brings to the front: no entry is smaller, and every earlier entry is strictly larger |
| DijkstraState.Remove | main.js:135 | `shift()` leaves the other entries in order |
| DijkstraState.Reprice | main.js:148-150 | the decrease-key variant changes only the distance of v's entry and keeps the queue's ids |
| DijkstraState.Lower | main.js:145-150 | one successful relaxation: v takes distance `alt` and predecessor u, and v's queue entry is pushed, left alone (as written) or repriced (decrease-key); its contract is stated by `DijkstraState.LowerPreserves` and `DijkstraState.LowerKeepsSettled` |
| DijkstraState.InitialCore | main.js:119-131 | the initial state satisfies every round invariant: queue ids distinct, queued nodes finite, start at 0 without predecessor, predecessors link along adjacency entries, finite nodes reachable |
| DijkstraState.LowerPreserves | main.js:143-150 | one successful relaxation `alt < distances.get(v)` keeps every invariant, never touches the start or u, and strictly lowers the (∞ count, finite sum) measure |
| DijkstraState.LowerKeepsSettled | main.js:144-150 | a relaxation keeps every queued node queued and leaves v queued |
| Dijkstra.Relax | main.js:142-152 | the pass over u's neighbour list, relaxing each entry in list order; its contract is stated by `Dijkstra.RelaxSteps`; the candidate distance is `Plus` (∞ plus any weight stays ∞) and the comparison is `Less` (strict, with ∞ above every finite value) |
| Dijkstra.RelaxSteps | main.js:141-153 | the pass over u's list keeps the invariants, only lowers distances, gives every lowered node u as predecessor and `distances[u] + w` of one of u's entries, and leaves every neighbour of u finite |
| Dijkstra.PopCore | main.js:134-135 | removing the popped entry keeps the invariants, keeps every other queued id and unqueues the popped one |
| Dijkstra.Popped | main.js:134-136 | the id popped is one that was queued |
| Dijkstra.Round | main.js:134-153 | one iteration of the `while` loop: pop, `break` on the end node, skip a stale or listless entry, otherwise relax; its contract is stated by `Dijkstra.RoundSteps` |
| Dijkstra.RoundSteps | main.js:133-154 | one round keeps the invariants; it stops exactly when the popped id is the end node, whose distance is then finite; otherwise it lowers the measure or shortens the queue |
| Dijkstra.Run | main.js:133-154 | the `while` loop terminates and keeps the invariants; a `break` leaves the end node finite, and otherwise the queue is empty |
| Dijkstra.Explore | main.js:119-154 | the search from the initial state ends in a state satisfying every invariant, with the end node finite whenever the loop broke on it |
| Dijkstra.Trace | main.js:157-162 | the `previous` chain read back from x ends at x, starts at a node with no predecessor, and each node is its successor's predecessor |
| Dijkstra.TraceIsWalk | main.js:157-162 | consecutive nodes of the traced path are adjacent, so the path is a walk |
| Dijkstra.TraceStartsAtStart | main.js:164 | the traced path begins at the start exactly when the end node's distance is finite |
| Dijkstra.ShortestPath | main.js:119-178 | the result is "found" exactly when the end distance is finite, and then the reported distance is that distance; the path is a walk from start to end following `previous` and the end is reachable; a null predecessor on a different end node means "no path" |
| Dijkstra.DecreaseKeyComplete | main.js:148-150 | with decrease-key, the end node gets a finite distance exactly when it is reachable from the start |
| Dijkstra.FindShortestPath | main.js:180-188 | the request is rejected exactly when either choice is empty or both are equal; otherwise the outcome is `dijkstra`'s |
| StaleEntry.StaleEntryLosesPath | main.js:139-150 | on A-B 5, A-C 3, C-B 1, B-D 1 the search from A to D as written ends with D at ∞ although A, B, D is a walk |
| StaleEntry.DecreaseKeyFindsPath | main.js:148-150 | with decrease-key the same search reaches D |
| Traversal.Take | main.js:212-217 | BFS takes the head (`shift`), DFS the tail (`pop`); the rest is what remains |
| Traversal.Push | main.js:228-232 | the pass over u's list only appends; each appended node is an unvisited neighbour not pending before it; every neighbour ends up visited or pending; `Pending` applies this pass to u's list, and leaves the container as it is when u has no list |
| Traversal.Step | main.js:212-234 | one timer callback: take a node, skip it if visited, otherwise visit it and push its unvisited neighbours; its contract is stated by `Traversal.StepKeeps` |
| Traversal.StepKeeps | main.js:203-235 | one callback keeps the invariant (pending nodes distinct and unvisited, order without repetition and starting at the start, every visited node's neighbours visited or pending, everything seen reachable); a newly visited node is appended to the order |
| Traversal.Walk | main.js:203-238 | repeating the callback terminates with an empty container and the invariant kept |
| Traversal.DrainedVisitsReachable | main.js:204-210 | once the container is empty, the order holds exactly the nodes reachable from the start |
| Traversal.WalkVisitsComponent | main.js:193-238 | a complete walk from a node lists it first, never repeats a node and lists exactly the nodes reachable from it |
| Traversal.RunTraversal | main.js:191-239 | the whole traversal from the first node in insertion order, or nothing on an empty graph; its contract is stated by `Traversal.TraversalVisitsComponent` |
| Traversal.TraversalVisitsComponent | main.js:191-239 | nothing happens on an empty graph; otherwise both BFS and DFS start at the first node in insertion order, never repeat a node, and visit exactly its connected component |
| Bipartite.CheckBipartite | main.js:242-282 | "empty" exactly on an empty graph; every coloured node that no earlier node in insertion order reaches (each component's root, the first node included) is coloured 1, every colour is 1 or 2 on a node, the verdict is true exactly when a proper two-colouring exists, and then the colouring is proper |
| Bipartite.ColourAll | main.js:253-276 | the loop over components: the first node and every other coloured node that no earlier node reaches are coloured 1, colours 1 or 2, true gives a proper colouring and false rules out every two-colouring |
| Bipartite.Drain | main.js:258-273 | draining one component's queue keeps earlier colours; a clash rules out every two-colouring, and otherwise every coloured node's neighbours carry the other colour |
| Bipartite.Scan | main.js:262-270 | the pass over u's neighbours colours each uncoloured one `3 - color(u)` and queues it: the old queue stays a prefix, and behind it stand exactly the newly coloured nodes, each a neighbour of u with the other colour, on both exits; stopping on a same-coloured neighbour rules out every two-colouring, and otherwise all of u's neighbours get the other colour |
| Bipartite.ColourKeeps | main.js:263-265 | colouring an uncoloured neighbour `3 - color(u)` as u's child in the forest and queueing it keeps the invariant |
| Bipartite.Parity | main.js:255-264 | in any proper two-colouring a node agrees with its tree's root exactly when the check gave it the root's colour |
| Bipartite.ConflictRefutes | main.js:266-268 | two adjacent nodes of one tree with equal colours rule out every two-colouring |
| Bipartite.StartComponent | main.js:254-256 | colouring a fresh root 1 and queueing it starts a new tree with the invariant |
| Bipartite.RootReaches | main.js:258-265 | every coloured node is reachable from the root of the tree that coloured it |
| Bipartite.RootsColouredOne | main.js:253-256 | a coloured node that no earlier node in insertion order reaches started its own tree, so it has colour 1 |
| Bipartite.SelfLoopNotBipartite | main.js:262-268 | a self-loop makes the graph not two-colourable |
| Matrix.LexTotal | main.js:286 | the string order `sort` uses is total |
| Matrix.LexTrans | main.js:286 | the string order is transitive |
| Matrix.LexAntisym | main.js:286 | the string order is antisymmetric |
| Matrix.Sort | main.js:286 | the sorted ids are a sorted permutation of the node ids |
| Matrix.SortedUnique | main.js:286 | any two sorted permutations of the same ids are equal, so the sort's result is determined |
| Matrix.IndexOf | main.js:291-292 | `indexOf` gives the first position of the id, or -1 exactly when it is absent |
| Matrix.Zeros | main.js:288 | the initial matrix is V×V and all 0 |
| Matrix.Record | main.js:291-294 | one edge writes its weight into the cells `[ui][vi]` and `[vi][ui]` and keeps the matrix V×V; which cells change is stated by `Matrix.RecordCell`; each write is `Put`, which replaces one cell |
| Matrix.RecordCell | main.js:290-295 | one edge writes exactly the two cells of its endpoints and leaves the rest unchanged |
| Matrix.FillAll | main.js:290-295 | the `forEach` over the edges, first edge first, keeps the matrix V×V; the cell contents are stated by `Matrix.FillAllCells` |
| Matrix.LastLinkIsLast | main.js:290-295 | the reference weight is that of an edge joining the two nodes with no later joining edge, and is absent exactly when no edge joins them |
| Matrix.FillAllCells | main.js:290-295 | after the edge loop, each cell holds the last joining edge's weight, or its initial value |
| Matrix.AdjacencyMatrix | main.js:285-295 | the ids are a sorted permutation of the nodes and the matrix is V×V |
| Matrix.MatrixCells | main.js:285-295 | the ids are distinct and in the only sorted order; the matrix is symmetric, and each cell holds the last joining edge's weight or 0 when no edge joins the two nodes |
| Matrix.LinkedIffAdjacent | main.js:290-295 | a matrix cell has a joining edge exactly when the adjacency lists pair the two nodes |
| Demo.DemoGraph | main.js:17-35 | the demo map is well formed, with 6 nodes and 8 edges |
| Demo.DemoEntries | main.js:17-35 | the demo's adjacency lists hold 16 entries |
| Demo.DemoNotBipartite | main.js:26-35 | the triangle A-B, A-C, B-C makes the demo map not two-colourable |

## Left out

- Drawing (`drawGraph`), DOM reads and writes, `alert`, `updateSelectOptions`, `downloadGraph`, and the text built for `path-result` and the matrix display: presentation only, not algorithmic.
- Node positions and display names: positions feed the drawing, and display names feed the drawing and the labels of the start and end options. `nodeCounter` is assigned but never read by these algorithms.
- The `setInterval`/`setTimeout` clock of `runTraversal`: the walk is the iteration of the callback until the container is empty.
- Floating-point arithmetic: weights are natural numbers and `Infinity` is `None`. Negative or fractional weights are not modelled.
- Edges whose endpoint is not a node: they make `adj.get(u).push` or `matrix[-1]` throw in the source. Here `WellFormed` excludes them as a precondition.
- Matrix.LexLe: the model compares characters by code point. JavaScript's default `sort` compares UTF-16 code units, which orders ids with characters outside the Basic Multilingual Plane differently.
- Dijkstra.ShortestPath: optimality of the reported distance is not proved, under either queue policy. Only the path's shape and its agreement with the final state are stated.
- Dijkstra.FindShortestPath: the select values are taken as either empty or a node id, so a value naming no node is a precondition.
- Node and edge editing and other graph algorithms are not part of this model.

## Findings

| source | as written | input that shows it | evidently intended | confidence | as-written member | corrected member |
|---|---|---|---|---|---|---|
| main.js:139-150 | when a queued node's distance is lowered, no new entry is pushed and the old entry keeps its old distance; when that entry is popped, `current.distance > distances.get(u)` treats it as stale and skips it, so the node is never expanded | edges A-B 5, A-C 3, C-B 1, B-D 1; `dijkstra("A", "D")`: B drops to 4 via C, its entry stays at 5 and is skipped, D stays ∞ and "no path" is reported although A, C, B, D has length 5 | update the queued entry (decrease-key) or push a new entry, so every node whose distance was lowered is expanded once more | high, not executed | StaleEntry.StaleEntryLosesPath | Dijkstra.DecreaseKeyComplete |
