# dijkstrafy in Dafny

dijkstrafy is a browser tool for drawing a directed, weighted graph and
watching shortest-path algorithms run on it step by step. This project
models its two core files and proves properties of the model:

- the `useGraph` hook (`src/hooks/useGraph.ts`);
- the batch algorithm library (`src/types/algorithms.ts`).

## The `useGraph` hook

The hook's state becomes the fields of the class `UseGraph.GraphStore`:

- the graph: a node list and an edge list;
- the start/end selection, by node number;
- the edge-drag gesture;
- the four highlighted sets;
- `isVisualizing`;
- the `visualizationActive` flag.

Each callback the hook returns becomes a method of the class.

**Graph edits.** Each edit is specified by a pure function in `GraphEdit`, with lemmas about how it treats the graph's shape:

- ids and numbers stay unique;
- there are no self-loops and no duplicate pairs;
- whether the graph is closed, meaning no edge dangles off a deleted node.

**Runs.** The three visualization runs are Dijkstra, Bellman-Ford and SPFA. Each is written as loops over the hook's state:

- Every `await sleep(...)` is a pause.
- The user's stop request is the parameter `stopAt`: `Some(k)` takes effect during the run's `k`-th pause.
- A run's contract states:
  - the highlighted sets it leaves: the visited nodes, and the ids of the edges that lowered a distance (the ghost result `relaxed`);
  - that each of those edges left its target with a predecessor and a distance strictly below its initial one (`Runs.Improving`);
  - how it ended (`Runs.Outcome`);
  - that distances never rise;
  - that every recorded predecessor is joined to its node by an edge.
- The shortest-path results are relative to the reference definitions in `GraphTypes` (`IsPath`, `Weight`, `IsShortest`, `Reachable`): with non-negative weights and no dangling edge, Dijkstra's end node gets its shortest distance, and when Bellman-Ford and SPFA finish, every known distance is the shortest one.

## The algorithm library

Each routine of `src/types/algorithms.ts` is an imperative method:

- `reconstructPath`;
- `bfs` and `dfs`, over `(id, parent)` work lists;
- the lazy `dijkstra` and `astar`, which run over the `PriorityQueue` class.

The `PriorityQueue` class is modelled in `PriorityQueues`, as a sorted array of `(item, priority)` pairs. `enqueue` is specified by the function `Insert`, which places the pair after every pair of priority not larger than its own; that is what a push followed by a stable sort does.

The searches are proved against `Visits`: each id is visited once, the start first, and every later id along an edge from an earlier one. From that, `SearchedFindsEnd` derives three facts:

- every visited id is reachable;
- the end is visited if and only if it is reachable;
- when the end is missed, every reachable id was visited.

JavaScript values:

- Distances are `Js.Num`: an integer, `Infinity`, or the `NaN` that `map.get` of a missing key produces after `+`.
- `<` is false whenever `NaN` is involved.
- Truthiness of an id ("" is falsy) is `Js.Truthy`.

## Where the code departs from the intended design

The intended design has edge weights of at least 1, a clear that removes the edges along with the nodes, a finished run that hands control back, and edges only between nodes of the graph. The code does otherwise in these places, and the model follows the code.

- `updateEdgeWeight` stores the weight as given; there is no bound.
- `clearGraph` removes only the nodes. The edges and the selection stay.
- After a run completes, `isVisualizing` stays true.
- `completeDrag` does not check that its two ids belong to live nodes, although an edge is meant to join two nodes of the graph. The model adds the edge all the same. `CompleteDrag` therefore promises that the graph stays closed (no dangling edge) only when both ends are live.

## Behaviour of the source

**`visualizeDijkstra` also visits unreachable nodes.** They are picked at `Infinity` until either the end node is picked or no unvisited node remains. Among equally near nodes, the `reduce` keeps the last in node order.

**`astar` can return a non-shortest path.** `astar` never lowers the priority of an id already in the open set: it enqueues a target only when `contains` is false. Worked by hand, with the zero heuristic and edges in the order S→A 10, S→B 1, B→A 1, A→E 1, S→E 5:

- S is dequeued. A, B and E are enqueued with priorities 10, 1 and 5.
- B is dequeued. The gScore of A drops to 2, but A keeps priority 10.
- E is dequeued next, with gScore 5.

The shortest distance to E is 3. The model has this behaviour (`Algorithms.Admit`). Accordingly, `Algorithms.AStar` does not claim optimality.

**Walks along `previous` may loop.** The path display of the hook and `reconstructPath` both walk `previous` back from the end node. When that walk returns to an id it already passed, the source loops forever. The model stops there and reports it: outcome `Diverged` in the hook, the flag `diverged` in `reconstructPath`.

## Model

| member | source | states |
|---|---|---|
| Seqs.FindIndex | src/types/algorithms.ts:27 | `find`/`findIndex` give the first element passing the test, and none exactly when no element passes |
| Seqs.Dedup | src/hooks/useGraph.ts:67 | `new Set(ids)` iterated in order has no duplicates and the same elements as the list |
| Seqs.Remove | src/hooks/useGraph.ts:110 | `unvisited.delete(id)` drops exactly that id, keeps the others and their uniqueness, and shrinks the set by one when the id was there |
| Seqs.DedupNoDup | src/hooks/useGraph.ts:67 | when the ids are unique, `new Set(ids)`, iterated in insertion order, is the id list itself, in the same order |
| Seqs.RemoveKeepsOrder | src/hooks/useGraph.ts:110 | `unvisited.delete(id)` keeps the remaining ids in their insertion order: the result is the list with that id filtered out |
| Seqs.OutsideRemove | src/hooks/useGraph.ts:110 | deleting an id from the ids not yet in the visit order leaves the ids not in the order extended by that id, in their original order |
| Seqs.FilterReverse | src/types/algorithms.ts:101-103 | filtering a reversed list is reversing the filtered list |
| GraphEdit.IsPositionOccupied | src/hooks/useGraph.ts:406-414 | a position is occupied if and only if some node lies closer than two radii (30) to it |
| GraphEdit.MaxNumber | src/hooks/useGraph.ts:383 | the maximum node number is at least every number and is carried by some node |
| GraphEdit.NextNodeNumber | src/hooks/useGraph.ts:381-385 | 0 on an empty graph; otherwise above every number, and one more than a number some node carries |
| GraphEdit.AddNodeKeepsInvariant | src/hooks/useGraph.ts:416-430 | appending the new node where no node is too close keeps ids and numbers unique, numbers natural, nodes spaced, and a closed graph closed |
| GraphEdit.DeleteNodeKeepsInvariant | src/hooks/useGraph.ts:432-449 | removing a node and its incident edges keeps the graph valid and a closed graph closed |
| GraphEdit.DeleteNodeCount | src/hooks/useGraph.ts:435 | with unique ids, deleting an existing node removes exactly one node |
| GraphEdit.DeleteEdgeKeepsInvariant | src/hooks/useGraph.ts:451-456 | removing an edge keeps the graph valid and closed |
| GraphEdit.DeleteEdgeCount | src/hooks/useGraph.ts:454 | with unique ids, deleting an existing edge removes exactly one edge |
| GraphEdit.ConfigAfterDelete | src/hooks/useGraph.ts:437-440 | a deleted node's number is cleared from the start and end selection; nothing else is changed |
| GraphEdit.IsValidNodeNumber | src/hooks/useGraph.ts:389-391 | a number is valid if and only if some node carries it |
| GraphEdit.DeleteNodeKeepsConfigLive | src/hooks/useGraph.ts:432-449 | after a deletion, the selection still names only live numbers |
| GraphEdit.FoundIsOnly | src/hooks/useGraph.ts:434 | with unique ids, the node `find` returns is the only one with that id |
| GraphEdit.SetWeight | src/hooks/useGraph.ts:320-327 | the edge with the id gets the new weight; every other edge is unchanged, and the length is kept |
| GraphEdit.SetWeightKeepsInvariant | src/hooks/useGraph.ts:320-327 | a weight change keeps the graph valid and closed, and stores the weight as given |
| GraphEdit.MoveNode | src/hooks/useGraph.ts:33-40 | the node with the id gets the new position; every other node is unchanged |
| GraphEdit.MoveNodeKeepsInvariant | src/hooks/useGraph.ts:33-40 | a move keeps the graph valid, its id set, its closedness and a live selection |
| GraphEdit.EdgeExists | src/hooks/useGraph.ts:351-355 | true if and only if some edge joins the two ids, in either direction |
| GraphEdit.ConnectKeepsInvariant | src/hooks/useGraph.ts:357-369 | an edge added by a successful drag keeps the edge list simple, and keeps a closed graph closed when both ends are live |
| GraphEdit.ConnectOnce | src/hooks/useGraph.ts:350-357 | after a drag added an edge, the same drag in either direction adds nothing |
| GraphEdit.ConnectRejects | src/hooks/useGraph.ts:339-357 | a drag adds nothing if and only if an end is falsy, the ends are equal, or an edge already joins them |
| Distances.InitDistances | src/hooks/useGraph.ts:70-72 | the initial distances have every node id as key, each at 0 or `Infinity` |
| Distances.InitDistancesValue | src/hooks/useGraph.ts:70-72 | with unique ids, a node starts at 0 exactly when it carries the start number |
| Distances.WitnessedRelax | src/hooks/useGraph.ts:172-176 | a successful relaxation keeps every finite distance the weight of a recorded walk from a source |
| Distances.SourceAtZero | src/hooks/useGraph.ts:70-72 | with non-negative weights, a start id at most 0 whose distance is a walk weight is exactly at 0 |
| Distances.FixpointLowerBound | src/hooks/useGraph.ts:189-196 | once no edge is relaxable, a walk from s to t weighs at least d[t] - d[s] |
| Distances.FixpointIsShortest | src/hooks/useGraph.ts:189-196 | once no edge is relaxable, with sources at most 0 and finite distances witnessed, every live distance is the shortest distance |
| Distances.DijkstraBound | src/hooks/useGraph.ts:75-111 | with non-negative weights, no walk to the nearest unvisited node weighs less than its distance |
| Distances.DijkstraIsShortest | src/hooks/useGraph.ts:75-111 | with non-negative weights, the node Dijkstra selects has its shortest distance |
| Runs.SelectMin | src/hooks/useGraph.ts:76-78 | the `reduce` picks an unvisited id that is strictly nearer than every later one; with no `NaN`, it is nearest of all |
| Runs.RelaxEdge | src/hooks/useGraph.ts:95-106 | one edge out of the current node lowers its target at most to the current distance plus the weight, and records the current node as predecessor; no distance rises and no predecessor is dropped |
| Runs.RelaxOutgoing | src/hooks/useGraph.ts:93-106 | after the `forEach`, every outgoing edge into a known node is relaxed relative to the current distance, each lowered distance is explained by a relaxed edge, and the current node keeps its distance |
| Runs.DijkstraStep | src/hooks/useGraph.ts:75-111 | visiting the nearest node and relaxing its edges keeps Dijkstra's invariant |
| Runs.PickInNodeOrder | src/hooks/useGraph.ts:76-78 | the `reduce` over the unvisited ids, which are in node order, picks an id strictly nearer than every unvisited id after it in node order: among equally near ids the last in node order wins |
| Runs.VisitingStep | src/hooks/useGraph.ts:75-111 | each round keeps the unvisited ids equal to the node ids not yet visited, in node order, and disjoint from the visit order, which together cover all node ids |
| Runs.DijkstraLoopInit | src/hooks/useGraph.ts:65-72 | before the first round every node id is unvisited, in node order, nothing is visited, and the distances are the initial ones |
| Runs.DijkstraPick | src/hooks/useGraph.ts:76-78 | the id picked each round is unvisited, not yet highlighted, and nearest among the unvisited; every unvisited id after it in node order is strictly farther |
| Runs.DijkstraPicksShortest | src/hooks/useGraph.ts:76-90 | with non-negative weights and no dangling edge, the picked id is at its shortest distance |
| Runs.DijkstraRound | src/hooks/useGraph.ts:76-110 | a round removes the picked id from `unvisited`, relaxes its outgoing edges, and keeps the loop invariant |
| Runs.Initialize | src/hooks/useGraph.ts:70-72 | the `forEach` loop builds the initial distances |
| Runs.InitialState | src/hooks/useGraph.ts:70-72 | with unique ids, the initial distances carry no `NaN`, hold the start ids at 0, and are witnessed by empty walks |
| Runs.RelaxSound | src/hooks/useGraph.ts:170-177 | one Bellman-Ford relaxation keeps the distances sound: no rise, witnessed finite distances, predecessor edges present, and every id with a predecessor below its initial distance |
| Runs.PrevLoweredRelax | src/hooks/useGraph.ts:174-176 | a relaxation keeps every id that has a predecessor strictly below its initial distance |
| Runs.ImprovingRound | src/hooks/useGraph.ts:93-108 | after a round of Dijkstra, every edge highlighted so far, earlier or in this round, has left its target with a predecessor and a distance below its initial one |
| Runs.BellmanFordEdge | src/hooks/useGraph.ts:171-177 | the edge is relaxed if and only if it is relaxable; it then sets the target's distance and predecessor, and otherwise changes nothing |
| Runs.FindRelaxable | src/hooks/useGraph.ts:189-196 | the negative-cycle test fires if and only if some edge is relaxable; when it does not, the triangle inequality holds |
| Runs.NoneRelaxable | src/hooks/useGraph.ts:189-196 | when no edge is relaxable, the triangle inequality holds everywhere |
| Runs.FixpointNoNegativeCycle | src/hooks/useGraph.ts:189-196 | once the test passes, no cycle reachable from a start id has negative weight |
| Runs.AllShortest | src/hooks/useGraph.ts:189-199 | at the fixpoint, every known distance is the shortest distance |
| Runs.PassCount | src/hooks/useGraph.ts:165-167 | `V - 1` passes for `V >= 1`, none otherwise |
| Runs.StartQueue | src/hooks/useGraph.ts:249-256 | SPFA's first queue holds exactly the start ids |
| Runs.StartQueueNoDup | src/hooks/useGraph.ts:249-256 | with unique ids, no id is queued twice at the start |
| Runs.SpfaInitialize | src/hooks/useGraph.ts:248-256 | the `forEach` builds the initial distances, the queue of start ids, and `inQueue` as the set of queued ids |
| Runs.SpfaInit | src/hooks/useGraph.ts:248-256 | the first queue is consistent with `inQueue`, and only the start ids are pending |
| Runs.SpfaDequeue | src/hooks/useGraph.ts:259-260 | `shift` and `inQueue.delete` keep the queue consistent; the head's outgoing edges become its only pending work |
| Runs.SpfaEdge | src/hooks/useGraph.ts:270-287 | one outgoing edge is relaxed if and only if it is relaxable; its target is queued unless already queued; soundness and pending work are kept |
| Runs.PendingDone | src/hooks/useGraph.ts:258 | an empty queue with nothing pending and no dangling edge is a relaxation fixpoint |
| Runs.ShownExtend | src/hooks/useGraph.ts:201-210 | passing an id on the path walk highlights it and its edge exactly when `edges.find` finds that edge |
| Runs.WalkDone | src/hooks/useGraph.ts:201 | a path walk that stops has passed a chain of predecessors ending at an id without one |
| Runs.WalkRepeats | src/hooks/useGraph.ts:201-214 | a path walk that reaches an id it passed loops forever |
| Runs.NodeIdOf | src/hooks/useGraph.ts:117 | the id of a node with the number, and `None` if and only if no node carries it |
| UseGraph.GraphStore.constructor | src/hooks/useGraph.ts:5-18 | empty graph, empty selection, no drag, nothing highlighted, not running |
| UseGraph.GraphStore.AddNode | src/hooks/useGraph.ts:416-430 | an occupied position leaves the graph unchanged; otherwise the new node is appended with the next number; validity and closedness are kept |
| UseGraph.GraphStore.DeleteNode | src/hooks/useGraph.ts:432-449 | the node, its incident edges and its number in the selection go; the graph stays valid and consistent |
| UseGraph.GraphStore.DeleteEdge | src/hooks/useGraph.ts:451-456 | every edge with the id goes; the nodes stay |
| UseGraph.GraphStore.UpdateEdgeWeight | src/hooks/useGraph.ts:320-327 | the edge's weight becomes the given one |
| UseGraph.GraphStore.UpdateNodePosition | src/hooks/useGraph.ts:33-40 | the node moves, with no spacing check |
| UseGraph.GraphStore.ClearGraph | src/hooks/useGraph.ts:374-379 | the nodes become empty, and the edges stay |
| UseGraph.GraphStore.SetStartNode | src/hooks/useGraph.ts:393-397 | clearing, or a number some node carries, is stored; any other number is ignored |
| UseGraph.GraphStore.SetEndNode | src/hooks/useGraph.ts:399-403 | clearing, or a number some node carries, is stored; any other number is ignored |
| UseGraph.GraphStore.StartDrag | src/hooks/useGraph.ts:329-331 | the drag starts at the node, with no temporary target |
| UseGraph.GraphStore.UpdateTempTarget | src/hooks/useGraph.ts:333-336 | ignored without a truthy source; otherwise it updates the temporary target |
| UseGraph.GraphStore.CompleteDrag | src/hooks/useGraph.ts:338-372 | an edge of weight 1 is appended only in the `Connects` case; the drag always ends |
| UseGraph.GraphStore.StopVisualization | src/hooks/useGraph.ts:22-31 | not active, not visualizing, nothing highlighted |
| UseGraph.GraphStore.Sleep | src/hooks/useGraph.ts:20 | a pause: a stop due then takes effect; otherwise the run goes on and the highlighting is unchanged |
| UseGraph.GraphStore.ShowEdge | src/hooks/useGraph.ts:178-184 | adding an edge id to the visited edges and pausing: that id is added and nothing else changes, unless a stop takes effect |
| UseGraph.GraphStore.ShowPath | src/hooks/useGraph.ts:116-133 | the path display highlights exactly the walked ids whose predecessor edge is found; it ends cancelled, completed at an id without predecessor, or diverged on a repeat |
| UseGraph.GraphStore.DijkstraTurn | src/hooks/useGraph.ts:75-111 | one round visits the nearest unvisited node (of equally near ones, the last in node order) and stops at the end, which then has its shortest distance; otherwise it relaxes and highlights; every highlighted edge is an edge from a visited node that left its target with a predecessor and a lower distance |
| UseGraph.GraphStore.DijkstraVisit | src/hooks/useGraph.ts:75-111 | the main loop visits each id once and keeps distances from rising; unless stopped, it ends at the end node when there is one; the highlighted edges are exactly the relaxed ones, each of which lowered its target |
| UseGraph.GraphStore.DijkstraRun | src/hooks/useGraph.ts:62-133 | a run with both endpoints set: the visits, the highlighted edges (exactly the relaxed ones, each lowering its target) and the path display; with non-negative weights and no dangling edge, the end node's distance is its shortest distance |
| UseGraph.GraphStore.VisualizeDijkstra | src/hooks/useGraph.ts:42-137 | a missing endpoint stops the run; otherwise the hook's state ends as `DijkstraRun` describes |
| UseGraph.GraphStore.BellmanFordTurn | src/hooks/useGraph.ts:170-185 | one edge is relaxed, highlighted and followed by a pause exactly when it is relaxable; the predecessor map changes only then, at the edge's target |
| UseGraph.GraphStore.BellmanFordStep | src/hooks/useGraph.ts:170-185 | one step of a pass adds the edge to the highlighted edges exactly when it lowered its target; every highlighted edge's target keeps a predecessor |
| UseGraph.GraphStore.BellmanFordPass | src/hooks/useGraph.ts:170-186 | a pass highlights each relaxed edge with one pause; each relaxed edge's target has a predecessor; a pass relaxing nothing leaves no relaxable edge |
| UseGraph.GraphStore.BellmanFordPasses | src/hooks/useGraph.ts:167-187 | at most `V - 1` passes, and exactly that many unless stopped; soundness is kept; the highlighted edges are the relaxed ones, whose targets have predecessors |
| UseGraph.GraphStore.VisualizeBellmanFord | src/hooks/useGraph.ts:139-222 | a negative-cycle test that fires ends the run; a completed run has no relaxable edge, highlights exactly the relaxed edges, each of which lowered its target, and, with no dangling edge, every distance is the shortest distance |
| UseGraph.GraphStore.SpfaTurn | src/hooks/useGraph.ts:271-289 | one edge is relaxed exactly when relaxable; it is then highlighted, its target queued once, a pause taken, and the predecessor map changes only at its target |
| UseGraph.GraphStore.SpfaStep | src/hooks/useGraph.ts:270-291 | one step of the inner loop adds the edge to the highlighted edges exactly when it lowered its target; every highlighted edge leaves the current node and its target keeps a predecessor |
| UseGraph.GraphStore.SpfaRelax | src/hooks/useGraph.ts:270-291 | after the current node's edges, nothing is pending except queued ids; the edges it highlighted leave the current node and their targets have predecessors |
| UseGraph.GraphStore.SpfaRound | src/hooks/useGraph.ts:258-291 | a round dequeues the head, highlights it, pauses and relaxes; queue consistency and soundness are kept |
| UseGraph.GraphStore.SpfaLoop | src/hooks/useGraph.ts:258-292 | a loop ending with an empty queue leaves nothing pending |
| UseGraph.GraphStore.VisualizeSPFA | src/hooks/useGraph.ts:224-318 | the highlighted edges are exactly the relaxed ones, each of which lowered its target; a completed run is at a relaxation fixpoint and, with no dangling edge, every distance is the shortest distance |
| PriorityQueues.InsertSplits | src/types/algorithms.ts:174-177 | the stable sort puts the new pair after every pair of priority not larger and before every larger one, keeping the old order |
| PriorityQueues.InsertSorted | src/types/algorithms.ts:174-177 | `enqueue` keeps the array sorted by priority |
| PriorityQueues.InsertPermutes | src/types/algorithms.ts:174-177 | `enqueue` adds exactly the new pair (as a multiset) |
| PriorityQueues.FirstIsMin | src/types/algorithms.ts:179-181 | the head of a sorted array has the least priority |
| PriorityQueues.PriorityQueue.constructor | src/types/algorithms.ts:172 | the queue starts empty |
| PriorityQueues.PriorityQueue.Enqueue | src/types/algorithms.ts:174-177 | the array stays sorted and is the old one with the pair inserted stably (a permutation of old plus the pair) |
| PriorityQueues.PriorityQueue.Dequeue | src/types/algorithms.ts:179-181 | `None` on an empty queue; otherwise the item of least priority (first among equals), removed |
| PriorityQueues.PriorityQueue.IsEmpty | src/types/algorithms.ts:183-185 | true if and only if the queue holds no pair |
| PriorityQueues.PriorityQueue.Contains | src/types/algorithms.ts:187-189 | true if and only if some pair carries the item |
| Algorithms.ReconstructPath | src/types/algorithms.ts:12-35 | start and end are always on the path, which is `{end, start}` with no edge when the end has no predecessor; the walk back from the end along `previous` never passes the start or repeats; it ends at the start, at an id without a truthy predecessor, or (`diverged`) at a repeat; the path is the walked ids plus the start, with the found edges |
| Algorithms.ReconstructedHasEnds | src/types/algorithms.ts:20-33 | start and end are always in `pathNodes` |
| Algorithms.ReconstructedWithoutPredecessor | src/types/algorithms.ts:22-33 | when the end has no predecessor, the path is `{end, start}` with no edge |
| Algorithms.EdgesAlongSound | src/types/algorithms.ts:27-28 | every path edge is an edge from `previous[c]` to some walked `c` |
| Algorithms.SearchStep | src/types/algorithms.ts:50-72 | one turn of the `bfs` loop, and of the `dfs` loop at lines 89-109 when the edges are reversed: a visited entry is dropped and nothing else changes; otherwise the id is visited and its parent edge recorded, the turn stops at the end, and otherwise pushes exactly the entries of the unvisited targets and makes the id their predecessor; the search invariant is kept |
| Algorithms.Expand | src/types/algorithms.ts:63-70 | the `forEach` appends one `(target, current)` entry per unvisited target, in edge order, and makes the current id their predecessor |
| Algorithms.Bfs | src/types/algorithms.ts:38-74 | each id is visited once, the start first, each later one along an edge from an earlier one; predecessors and visited edges are edges; the loop stops right after the end; otherwise the visited set is closed under edges; the path is reconstructed |
| Algorithms.Dfs | src/types/algorithms.ts:77-113 | the same facts for the stack discipline |
| Algorithms.DfsPushOrder | src/types/algorithms.ts:101-109 | pushing the reversed edges leaves the entry of the first unvisited edge on top |
| Algorithms.SearchedFindsEnd | src/types/algorithms.ts:38-113 | every visited id is reachable; the end is visited if and only if it is reachable; when it is not, every reachable id was visited |
| Algorithms.VisitedReachable | src/types/algorithms.ts:49-70 | every visited id is reachable from the start |
| Algorithms.StartDistances | src/types/algorithms.ts:205-208 | every node id at `Infinity`, then the start at 0 |
| Algorithms.InitLazy | src/types/algorithms.ts:205-208 | the `forEach` loop builds exactly those distances |
| Algorithms.LazyEdge | src/types/algorithms.ts:222-232 | exactly when the new distance is less than the target's, the target gets that distance and the current id as predecessor, the edge is recorded, and the target is pushed with that distance; otherwise nothing changes; no distance rises |
| Algorithms.LazyRelaxAll | src/types/algorithms.ts:219-233 | the `forEach` over the current node's edges keeps the maps' invariant, raises no distance, and pushes only reached targets |
| Algorithms.LazyStartAtZero | src/types/algorithms.ts:205-241 | with non-negative weights, the start's distance, at most 0 throughout, is exactly 0 |
| Algorithms.Dijkstra | src/types/algorithms.ts:192-241 | each id is visited at most once, the start first; the loop ends right after the end; no distance rises; the start stays at most 0, and is exactly 0 with non-negative weights; finite distances are walk weights; predecessors are visited ids joined by an edge; each visited edge leaves a visited id and left its target with a predecessor and a distance below its initial one; the path is reconstructed |
| Algorithms.InsertDistinct | src/types/algorithms.ts:160-162 | enqueueing an id the open set does not contain keeps the open set free of duplicates |
| Algorithms.Admit | src/types/algorithms.ts:160-162 | an id already in the open set leaves it unchanged (the old priority stays); otherwise it is inserted with the given priority |
| Algorithms.InitScores | src/types/algorithms.ts:130-136 | every gScore and fScore starts at `Infinity`; the start has gScore 0 and fScore its heuristic |
| Algorithms.InitScoresAgree | src/types/algorithms.ts:130-136 | the initial fScore equals the initial gScore plus the heuristic |
| Algorithms.AStarLower | src/types/algorithms.ts:148-158 | the scores change exactly when the tentative gScore is less than the target's; the target then gets that gScore, fScore gScore plus heuristic, the current id as predecessor and the edge recorded, and the priority to enqueue is that fScore; otherwise nothing changes; no gScore rises |
| Algorithms.AStarEdge | src/types/algorithms.ts:147-163 | the state `AStarLower` describes, and the target is admitted to the open set with its fScore only when lowered (an id already queued keeps its old priority); the open set stays sorted and free of duplicates |
| Algorithms.AStarRelaxAll | src/types/algorithms.ts:145-164 | the `forEach` keeps the scores' invariant, raises no gScore, and keeps the open set's ids among reached targets |
| Algorithms.AStarTurn | src/types/algorithms.ts:139-164 | one turn dequeues the head of the open set, whose priority is least; it is appended to the visited ids unless already there; the turn stops exactly when it is the end, leaving the scores unchanged; otherwise it relaxes; no gScore rises |
| Algorithms.AStarLoop | src/types/algorithms.ts:139-165 | the `while` loop visits ids along edges from the start, stops right after the end, keeps the scores' invariants, and raises no gScore |
| Algorithms.AStar | src/types/algorithms.ts:116-168 | the start is visited first and each later id along an edge; the run stops right after the end; gScores never rise; the start stays at most 0, and is exactly 0 with non-negative weights; fScore is gScore plus heuristic throughout; each visited edge lowered its target; the path is reconstructed |

## Left out

- React plumbing is not modelled: `useState` setters, `useCallback`, `useRef`, the components, and `isDeleting`/`setIsDeleting`. The state is held in fields instead.
- Timing and concurrency are not modelled. The only effect kept from `sleep` is that a stop may take effect during a pause, chosen by the parameter `stopAt`.
- `console` output is left out.
- The fresh ids `node-${Date.now()}` and `edge-${Date.now()}` become parameters, which are required to be unused.
- Floating point is not modelled:
  - Coordinates are reals.
  - The `sqrt` test compares the squared distance with 900.
  - Weights are integers.
- Algorithms.AStar: the heuristic is an integer-valued parameter. The geometric heuristic and fractional scores are not modelled.
- Algorithms.AStar: it runs at most `fuel` turns and reports `exhausted`, because nothing in the model bounds how often an id re-enters the open set. It states no optimality, since the source's A* does not have it.
- UseGraph.GraphStore.VisualizeSPFA: it runs at most `fuel` rounds and reports `OutOfFuel`. With a negative cycle, the source's queue never empties.
- UseGraph.GraphStore.VisualizeDijkstra: it states shortest distance only for the end node and only when the loop stopped there. With negative weights or a dangling edge, it states no optimality.
- `try`/`catch`: the only exception the core throws is Bellman-Ford's negative-cycle error, which is the `NegativeCycle` outcome. Errors from arbitrary code inside the `try` are not modelled.
- Runs work on the graph and selection as they were when the run started. Edits made while a run is suspended are not modelled.
