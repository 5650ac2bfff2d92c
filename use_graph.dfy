/**
 * The `useGraph` hook as an object: its state (the graph, the start/end
 * selection, the edge drag, the highlighted sets, `isVisualizing` and the
 * `visualizationActive` flag) becomes fields, and each callback it returns
 * becomes a method that updates them.
 *
 * A run (`visualizeDijkstra` and its siblings) suspends at every
 * `await sleep(...)`; while suspended, the user may press stop.  A run is
 * therefore given `stopAt`: `Some(k)` stops it during its `k`-th pause
 * (counting from 0), `None` lets it run on.  Runs work on the graph and
 * selection as they were when the run started.
 */
module UseGraph {
  import opened Js
  import opened Seqs
  import opened GraphTypes
  import opened Distances
  import opened GraphEdit
  import opened Runs

  class GraphStore {
    var graph: Graph
    var config: GraphConfig
    var drag: DragState
    var viz: VizSets
    var isVisualizing: bool
    /** `visualizationActive.current`. */
    var active: bool

    /** Ids and numbers are unique and edges are simple: every edit keeps this. */
    ghost predicate Valid()
      reads this
    {
      ValidGraph(graph)
    }

    /** No dangling edge and the selection names live nodes: every edit except `ClearGraph` keeps this. */
    ghost predicate Consistent()
      reads this
    {
      Closed(graph) && ConfigLive(config, graph.nodes)
    }

    constructor()
      ensures graph == Graph([], []) && config == GraphConfig(None, None) && drag == Idle
      ensures viz == NoViz && !isVisualizing && !active
      ensures Valid() && Consistent()
    {
      graph := Graph([], []);
      config := GraphConfig(None, None);
      drag := Idle;
      viz := NoViz;
      isVisualizing := false;
      active := false;
    }

    // ----- graph edits -----

    /** `addNode(x, y)`, with `id` standing for the fresh `node-<timestamp>` id. */
    method AddNode(x: real, y: real, id: string)
      requires Valid() && id !in NodeIdSet(graph.nodes)
      modifies this`graph
      ensures IsPositionOccupied(old(graph.nodes), x, y) ==> graph == old(graph)
      ensures !IsPositionOccupied(old(graph.nodes), x, y) ==>
        graph == Graph(old(graph.nodes) + [NewNode(old(graph.nodes), id, x, y)], old(graph.edges))
      ensures Valid() && (old(Consistent()) ==> Consistent())
    {
      if IsPositionOccupied(graph.nodes, x, y) {
        return;
      }
      var node := NewNode(graph.nodes, id, x, y);
      AddNodeKeepsInvariant(graph, id, x, y);
      ghost var before := graph.nodes;
      graph := graph.(nodes := graph.nodes + [node]);
      forall num | IsValidNodeNumber(before, num) ensures IsValidNodeNumber(graph.nodes, num) {
        var i :| 0 <= i < |before| && before[i].number == num;
        assert graph.nodes[i] == before[i];
      }
    }

    /** `deleteNode(id)`: the node, its incident edges, and a start or end selection of its number go. */
    method DeleteNode(id: string)
      requires Valid()
      modifies this`graph, this`config
      ensures graph == Graph(RemoveNode(old(graph.nodes), id), RemoveIncident(old(graph.edges), id))
      ensures config == ConfigAfterDelete(old(config), FindNode(old(graph.nodes), id))
      ensures FindNode(old(graph.nodes), id).Some? ==> |graph.nodes| == |old(graph.nodes)| - 1
      ensures Valid() && (old(Consistent()) ==> Consistent())
    {
      var deleted := FindNode(graph.nodes, id);
      if deleted.Some? {
        if Some(deleted.value.number) == config.startNode { SetStartNode(None); }
        if Some(deleted.value.number) == config.endNode { SetEndNode(None); }
        DeleteNodeCount(graph.nodes, id);
      }
      if Consistent() {
        DeleteNodeKeepsConfigLive(graph.nodes, old(config), id);
      }
      DeleteNodeKeepsInvariant(graph, id);
      graph := Graph(RemoveNode(graph.nodes, id), RemoveIncident(graph.edges, id));
    }

    /** `deleteEdge(id)`. */
    method DeleteEdge(id: string)
      requires Valid()
      modifies this`graph
      ensures graph == Graph(old(graph.nodes), RemoveEdge(old(graph.edges), id))
      ensures Valid() && (old(Consistent()) ==> Consistent())
    {
      DeleteEdgeKeepsInvariant(graph, id);
      graph := graph.(edges := RemoveEdge(graph.edges, id));
    }

    /** `updateEdgeWeight(id, w)`: the weight is stored as given, without any bound. */
    method UpdateEdgeWeight(id: string, w: int)
      requires Valid()
      modifies this`graph
      ensures graph == Graph(old(graph.nodes), SetWeight(old(graph.edges), id, w))
      ensures Valid() && (old(Consistent()) ==> Consistent())
    {
      SetWeightKeepsInvariant(graph, id, w);
      graph := graph.(edges := SetWeight(graph.edges, id, w));
    }

    /** `updateNodePosition(id, x, y)`: moving does not consult the spacing test. */
    method UpdateNodePosition(id: string, x: real, y: real)
      requires Valid()
      modifies this`graph
      ensures graph == Graph(MoveNode(old(graph.nodes), id, x, y), old(graph.edges))
      ensures Valid() && (old(Consistent()) ==> Consistent())
    {
      MoveNodeKeepsInvariant(graph, config, id, x, y);
      graph := graph.(nodes := MoveNode(graph.nodes, id, x, y));
    }

    /** `clearGraph()`: only the nodes go; the edges and the selection stay. */
    method ClearGraph()
      requires Valid()
      modifies this`graph
      ensures graph == Graph([], old(graph.edges))
      ensures Valid()
    {
      graph := graph.(nodes := []);
    }

    /** `setStartNode(num)`: accepted when clearing, or when some node carries the number. */
    method SetStartNode(num: Option<int>)
      modifies this`config
      ensures num.None? || IsValidNodeNumber(graph.nodes, num.value) ==> config == old(config).(startNode := num)
      ensures !(num.None? || IsValidNodeNumber(graph.nodes, num.value)) ==> config == old(config)
      ensures old(ConfigLive(config, graph.nodes)) ==> ConfigLive(config, graph.nodes)
    {
      if num.None? || IsValidNodeNumber(graph.nodes, num.value) {
        config := config.(startNode := num);
      }
    }

    /** `setEndNode(num)`: accepted when clearing, or when some node carries the number. */
    method SetEndNode(num: Option<int>)
      modifies this`config
      ensures num.None? || IsValidNodeNumber(graph.nodes, num.value) ==> config == old(config).(endNode := num)
      ensures !(num.None? || IsValidNodeNumber(graph.nodes, num.value)) ==> config == old(config)
      ensures old(ConfigLive(config, graph.nodes)) ==> ConfigLive(config, graph.nodes)
    {
      if num.None? || IsValidNodeNumber(graph.nodes, num.value) {
        config := config.(endNode := num);
      }
    }

    // ----- edge drag -----

    /** `startDrag(id)`. */
    method StartDrag(id: string)
      modifies this`drag
      ensures drag == DragState(Some(id), None)
    {
      drag := DragState(Some(id), None);
    }

    /** `updateTempTarget(x, y)`: ignored unless a drag with a truthy source is under way. */
    method UpdateTempTarget(x: real, y: real)
      modifies this`drag
      ensures !Truthy(old(drag.sourceId)) ==> drag == old(drag)
      ensures Truthy(old(drag.sourceId)) ==> drag == old(drag).(tempTarget := Some(Point(x, y)))
    {
      if !Truthy(drag.sourceId) {
        return;
      }
      drag := drag.(tempTarget := Some(Point(x, y)));
    }

    /**
     * `completeDrag(target)`, with `id` standing for the fresh `edge-<timestamp>` id:
     * the edge is added only in the case `Connects` describes, and the drag always ends.
     */
    method CompleteDrag(target: Option<string>, id: string)
      requires Valid() && forall e :: e in graph.edges ==> e.id != id
      modifies this`graph, this`drag
      ensures drag == Idle
      ensures Connects(old(drag.sourceId), target, old(graph.edges)) ==>
        graph == Graph(old(graph.nodes), old(graph.edges) + [DragEdge(id, old(drag.sourceId).value, target.value)])
      ensures !Connects(old(drag.sourceId), target, old(graph.edges)) ==> graph == old(graph)
      ensures Valid()
      ensures old(Consistent()) && Connects(old(drag.sourceId), target, old(graph.edges)) ==>
        (old(drag.sourceId).value in NodeIdSet(graph.nodes) && target.value in NodeIdSet(graph.nodes) ==> Consistent())
    {
      var source := drag.sourceId;
      if !Truthy(source) || !Truthy(target) {
        drag := Idle;
        return;
      }
      if source.value == target.value {
        drag := Idle;
        return;
      }
      if !EdgeExists(graph.edges, source.value, target.value) {
        ConnectKeepsInvariant(graph, source, target, id);
        graph := graph.(edges := graph.edges + [DragEdge(id, source.value, target.value)]);
      }
      drag := Idle;
    }

    // ----- runs -----

    /** The state `stopVisualization()` leaves: nothing runs and nothing is highlighted. */
    ghost predicate Cleared()
      reads this
    {
      !active && !isVisualizing && viz == NoViz
    }

    /** A run is under way and the stop request, if any, is still ahead. */
    ghost predicate Live(stopAt: Option<nat>, pauses: nat)
      reads this
    {
      active && isVisualizing && (stopAt.None? || pauses <= stopAt.value)
    }

    /** `stopVisualization()`. */
    method StopVisualization()
      modifies this`active, this`isVisualizing, this`viz
      ensures Cleared()
    {
      active := false;
      isVisualizing := false;
      viz := NoViz;
    }

    /** `await sleep(ms)`, the run's `pauses`-th pause: a stop requested during it takes effect. */
    method Sleep(stopAt: Option<nat>, pauses: nat) returns (next: nat)
      requires Live(stopAt, pauses)
      modifies this`active, this`isVisualizing, this`viz
      ensures next == pauses + 1
      ensures stopAt == Some(pauses) ==> Cleared()
      ensures stopAt != Some(pauses) ==> Live(stopAt, next) && viz == old(viz)
    {
      if stopAt == Some(pauses) {
        StopVisualization();
      }
      next := pauses + 1;
    }

    /** Highlight the edge `id` among the visited edges, then pause. */
    method ShowEdge(id: string, stopAt: Option<nat>, pauses0: nat, ghost vis: set<string>, ghost shown: set<string>)
      returns (pauses: nat)
      requires Live(stopAt, pauses0) && viz == VizSets(vis, shown, {}, {})
      modifies this`active, this`isVisualizing, this`viz
      ensures pauses == pauses0 + 1
      ensures !active ==> Cleared()
      ensures active ==> Live(stopAt, pauses) && viz == VizSets(vis, shown + {id}, {}, {})
    {
      viz := viz.(visitedEdges := viz.visitedEdges + {id});
      pauses := Sleep(stopAt, pauses0);
    }

    /**
     * The path display shared by the three runs: from the end node, follow
     * `previous`, highlighting each node and the edge from its predecessor
     * when that edge is found, with a pause after each.  When the walk comes
     * back to a node it passed, the source loops for ever; the model then
     * reports `Diverged`, or `Cancelled` when that lap pauses and a stop is
     * still due.
     */
    method ShowPath(edges: seq<Edge>, prev: map<string, string>, endId: Option<string>, stopAt: Option<nat>, pauses0: nat,
                    ghost vis: set<string>, ghost shown: set<string>)
      returns (outcome: Outcome, pauses: nat, ghost chain: seq<string>)
      requires Live(stopAt, pauses0) && viz == VizSets(vis, shown, {}, {})
      modifies this`active, this`isVisualizing, this`viz
      ensures outcome == Cancelled || outcome == Completed || outcome == Diverged
      ensures outcome == Cancelled ==> Cleared()
      ensures outcome != Cancelled ==>
        Live(stopAt, pauses) && PrevChain(prev, endId, chain) &&
        viz == VizSets(vis, shown, PathNodes(edges, prev, chain), PathEdgeIds(edges, prev, chain))
      ensures outcome == Completed ==> ChainStops(prev, chain)
      ensures outcome == Diverged ==> ChainLoops(prev, chain)
    {
      var cur := endId;
      var seen: map<string, nat> := map[];
      chain := [];
      pauses := pauses0;
      while Truthy(cur) && cur.value in prev
        invariant Live(stopAt, pauses)
        invariant Walking(prev, endId, chain, cur)
        invariant seen.Keys == Elems(chain)
        invariant forall c :: c in seen ==> seen[c] <= pauses
        invariant viz == VizSets(vis, shown, PathNodes(edges, prev, chain), PathEdgeIds(edges, prev, chain))
        decreases prev.Keys - seen.Keys
      {
        var c := cur.value;
        if c in seen {
          // From here on the loop repeats the same lap, and the highlighted sets no longer grow.
          WalkRepeats(prev, endId, chain, cur);
          if pauses > seen[c] && stopAt.Some? {
            StopVisualization();
            return Cancelled, pauses, chain;
          }
          return Diverged, pauses, chain;
        }
        assert prev.Keys - seen[c := pauses].Keys < prev.Keys - seen.Keys by {
          assert c in prev.Keys - seen.Keys;
        }
        seen := seen[c := pauses];
        ghost var chain0 := chain;
        chain := chain + [c];
        pauses := PathTurn(edges, prev, endId, stopAt, chain0, c, pauses, vis, shown);
        if !active {
          return Cancelled, pauses, chain;
        }
        cur := Some(prev[c]);
      }
      WalkDone(prev, endId, chain, cur);
      return Completed, pauses, chain;
    }

    /**
     * One turn of the path display: pass `c`, and when the edge from its
     * predecessor is found, highlight both and pause.
     */
    method PathTurn(edges: seq<Edge>, prev: map<string, string>, endId: Option<string>, stopAt: Option<nat>,
                    ghost chain: seq<string>, c: string, pauses0: nat, ghost vis: set<string>, ghost shown: set<string>)
      returns (pauses: nat)
      requires Walking(prev, endId, chain, Some(c)) && c != "" && c in prev && c !in chain
      requires Live(stopAt, pauses0) && viz == VizSets(vis, shown, PathNodes(edges, prev, chain), PathEdgeIds(edges, prev, chain))
      modifies this`active, this`isVisualizing, this`viz
      ensures Walking(prev, endId, chain + [c], Some(prev[c])) && pauses >= pauses0
      ensures !active ==> Cleared()
      ensures active ==> Live(stopAt, pauses)
      ensures active ==> viz == VizSets(vis, shown, PathNodes(edges, prev, chain + [c]), PathEdgeIds(edges, prev, chain + [c]))
    {
      WalkStep(prev, endId, chain, Some(c));
      ShownExtend(edges, prev, chain, c);
      pauses := pauses0;
      var edge := FindEdge(edges, prev[c], c);
      if edge.Some? {
        viz := viz.(path := viz.path + {c}, pathEdges := viz.pathEdges + {edge.value.id});
        pauses := Sleep(stopAt, pauses);
      }
    }

    /**
     * One round of `visualizeDijkstra()`'s main loop: pick the nearest
     * unvisited node (of the nearest, the last in node order `ids`),
     * highlight it and pause; stop there if a stop took
     * effect or it is the end node; otherwise relax its outgoing edges,
     * highlighting those that lowered a distance, and mark it visited.
     */
    method DijkstraTurn(edges: seq<Edge>, ghost ids: seq<string>, ghost K: set<string>, ghost src: set<string>, ghost d0: map<string, Num>,
                        endId: Option<string>, stopAt: Option<nat>,
                        unvisited0: seq<string>, dist0: map<string, Num>, prev0: map<string, string>,
                        order0: seq<string>, pauses0: nat, ghost wit0: map<string, Walk>, ghost relaxed0: seq<Edge>)
      returns (unvisited: seq<string>, dist: map<string, Num>, prev: map<string, string>, order: seq<string>,
               pauses: nat, reached: bool, ghost wit: map<string, Walk>, ghost relaxedAll: seq<Edge>)
      requires DijkstraLoop(edges, ids, K, src, d0, unvisited0, dist0, prev0, order0, wit0) && unvisited0 != []
      requires endId.Some? ==> endId.value in unvisited0
      requires forall e :: e in relaxed0 ==> e in edges && e.source in order0
      requires Improving(d0, dist0, prev0, relaxed0)
      requires Live(stopAt, pauses0) && viz == VizSets(Elems(order0), IdsOf(relaxed0), {}, {})
      modifies this`active, this`isVisualizing, this`viz
      ensures order == order0 + [SelectMin(unvisited0, dist0)]
      ensures exists i :: 0 <= i < |ids| && ids[i] == SelectMin(unvisited0, dist0) && BeatsLaterOutside(ids, order0, dist0, i)
      ensures NotNaN(dist) && NoHigher(dist, d0) && PrevSound(edges, prev)
      ensures NoDup(order) && forall x :: x in order ==> x in K
      ensures forall e :: e in relaxedAll ==> e in edges && e.source in order
      ensures Improving(d0, dist, prev, relaxedAll)
      ensures !active ==> Cleared() && !reached
      ensures reached ==> active && endId == Some(order[|order| - 1]) && Live(stopAt, pauses) &&
                          viz == VizSets(Elems(order), IdsOf(relaxedAll), {}, {})
      ensures reached && NonNegative(edges) && EdgesWithin(edges, K) ==> IsShortest(edges, src, endId.value, dist[endId.value])
      ensures active && !reached ==>
        DijkstraLoop(edges, ids, K, src, d0, unvisited, dist, prev, order, wit) && |unvisited| < |unvisited0| &&
        (endId.Some? ==> endId.value in unvisited) &&
        Live(stopAt, pauses) && viz == VizSets(Elems(order), IdsOf(relaxedAll), {}, {})
    {
      unvisited, dist, prev, pauses, reached, wit, relaxedAll := unvisited0, dist0, prev0, pauses0, false, wit0, relaxed0;
      var cur := SelectMin(unvisited, dist);
      DijkstraPick(edges, ids, K, src, d0, unvisited, dist, prev, order0, wit);
      viz := viz.(visited := viz.visited + {cur});
      order := order0 + [cur];
      assert Elems(order) == Elems(order0) + {cur};
      pauses := Sleep(stopAt, pauses);
      if !active {
        return;
      }
      if Some(cur) == endId {
        if NonNegative(edges) && EdgesWithin(edges, K) {
          DijkstraPicksShortest(edges, ids, K, src, d0, unvisited, dist, prev, order0, wit);
        }
        reached := true;
        return;
      }
      var relaxed;
      unvisited, dist, prev, relaxed, wit := DijkstraRound(edges, ids, K, src, d0, unvisited, dist, prev, order0, wit);
      ImprovingRound(d0, dist0, prev0, relaxedAll, dist, prev, relaxed, cur);
      viz := viz.(visitedEdges := viz.visitedEdges + IdsOf(relaxed));
      IdsOfConcat(relaxedAll, relaxed);
      relaxedAll := relaxedAll + relaxed;
    }

    /**
     * The main loop of `visualizeDijkstra()`, round after round while
     * unvisited nodes remain and no stop took effect.  `reached` says the
     * loop stopped at the end node.
     */
    method DijkstraVisit(edges: seq<Edge>, ghost ids: seq<string>, ghost K: set<string>, ghost src: set<string>, d0: map<string, Num>,
                         endId: Option<string>, stopAt: Option<nat>, unvisited0: seq<string>, ghost wit0: map<string, Walk>)
      returns (dist: map<string, Num>, prev: map<string, string>, order: seq<string>, pauses: nat, reached: bool,
               ghost relaxedAll: seq<Edge>)
      requires DijkstraLoop(edges, ids, K, src, d0, unvisited0, d0, map[], [], wit0)
      requires endId.Some? ==> endId.value in unvisited0
      requires Live(stopAt, 0) && viz == NoViz
      modifies this`active, this`isVisualizing, this`viz
      ensures NotNaN(dist) && NoHigher(dist, d0) && PrevSound(edges, prev)
      ensures NoDup(order) && forall x :: x in order ==> x in K
      ensures forall e :: e in relaxedAll ==> e in edges && e.source in order
      ensures Improving(d0, dist, prev, relaxedAll)
      ensures !active ==> Cleared()
      ensures active ==> Live(stopAt, pauses) && viz == VizSets(Elems(order), IdsOf(relaxedAll), {}, {})
      ensures active && endId.Some? ==> reached
      ensures reached ==> endId.Some? && order != [] && order[|order| - 1] == endId.value
      ensures reached && NonNegative(edges) && EdgesWithin(edges, K) ==> IsShortest(edges, src, endId.value, dist[endId.value])
    {
      dist, prev, order, pauses, reached := d0, map[], [], 0, false;
      var unvisited := unvisited0;
      ghost var wit := wit0;
      relaxedAll := [];
      while |unvisited| > 0 && active
        invariant DijkstraLoop(edges, ids, K, src, d0, unvisited, dist, prev, order, wit)
        invariant endId.Some? ==> endId.value in unvisited
        invariant forall e :: e in relaxedAll ==> e in edges && e.source in order
        invariant Improving(d0, dist, prev, relaxedAll)
        invariant active ==> Live(stopAt, pauses) && viz == VizSets(Elems(order), IdsOf(relaxedAll), {}, {})
        invariant !active ==> Cleared()
        invariant !reached
        decreases |unvisited|
      {
        unvisited, dist, prev, order, pauses, reached, wit, relaxedAll :=
          DijkstraTurn(edges, ids, K, src, d0, endId, stopAt, unvisited, dist, prev, order, pauses, wit, relaxedAll);
        if !active || reached {
          return;
        }
      }
    }

    /**
     * The run of `visualizeDijkstra()` once both endpoints are set, on the
     * graph's `nodes` and `edges`, from the node numbered `start` to the one
     * numbered `endNode`.
     */
    method DijkstraRun(nodes: seq<Node>, edges: seq<Edge>, start: int, endNode: int, stopAt: Option<nat>)
      returns (outcome: Outcome, dist: map<string, Num>, prev: map<string, string>, order: seq<string>,
               ghost chain: seq<string>, ghost relaxed: seq<Edge>)
      requires NodeIdsUnique(nodes)
      requires Live(stopAt, 0) && viz == NoViz
      modifies this`active, this`isVisualizing, this`viz
      ensures outcome == Cancelled || outcome == Completed || outcome == Diverged
      ensures outcome == Cancelled ==> Cleared()
      ensures NotNaN(dist) && NoHigher(dist, InitDistances(nodes, start)) &&
        PrevSound(edges, prev) && NoDup(order) && (forall x :: x in order ==> x in NodeIdSet(nodes))
      ensures (forall e :: e in relaxed ==> e in edges && e.source in order) &&
        Improving(InitDistances(nodes, start), dist, prev, relaxed)
      ensures outcome != Cancelled ==>
        Live(stopAt, 0) && viz.visited == Elems(order) && viz.visitedEdges == IdsOf(relaxed) &&
        PrevChain(prev, NodeIdOf(nodes, endNode), chain) &&
        viz.path == PathNodes(edges, prev, chain) && viz.pathEdges == PathEdgeIds(edges, prev, chain) &&
        (outcome == Completed ==> ChainStops(prev, chain)) && (outcome == Diverged ==> ChainLoops(prev, chain))
      ensures outcome != Cancelled && NodeIdOf(nodes, endNode).Some? ==>
        order != [] && order[|order| - 1] == NodeIdOf(nodes, endNode).value
      ensures outcome != Cancelled && NodeIdOf(nodes, endNode).Some? &&
              NonNegative(edges) && EdgesWithin(edges, NodeIdSet(nodes)) ==>
        IsShortest(edges, StartIds(nodes, start), NodeIdOf(nodes, endNode).value, dist[NodeIdOf(nodes, endNode).value])
    {
      var endId := NodeIdOf(nodes, endNode);
      var d0 := Initialize(nodes, start);
      DijkstraLoopInit(edges, nodes, start);
      var unvisited := Dedup(NodeIds(nodes));
      if endId.Some? {
        NodeIdsAreIdSet(nodes);
      }
      var pauses, reached;
      dist, prev, order, pauses, reached, relaxed :=
        DijkstraVisit(edges, NodeIds(nodes), NodeIdSet(nodes), StartIds(nodes, start), d0, endId, stopAt, unvisited,
                      StartWalks(StartIds(nodes, start)));
      if !active {
        return Cancelled, dist, prev, order, [], relaxed;
      }
      outcome, pauses, chain := ShowPath(edges, prev, endId, stopAt, pauses, viz.visited, viz.visitedEdges);
    }

    /**
     * `visualizeDijkstra()`.  Beyond the new state, the run's own `distances`,
     * `previous` and order of visits are returned.  The node picked each
     * round is the nearest unvisited one (`SelectMin`), distances only fall,
     * the loop stops once the end node is picked, and with non-negative
     * weights and no dangling edge the end node's distance is its shortest
     * distance from the start.
     */
    method VisualizeDijkstra(stopAt: Option<nat>)
      returns (outcome: Outcome, dist: map<string, Num>, prev: map<string, string>, order: seq<string>,
               ghost chain: seq<string>, ghost relaxed: seq<Edge>)
      requires Valid()
      modifies this`active, this`isVisualizing, this`viz
      ensures outcome == MissingEndpoints || outcome == Cancelled || outcome == Completed || outcome == Diverged
      ensures outcome == MissingEndpoints <==> config.startNode.None? || config.endNode.None?
      ensures outcome == MissingEndpoints || outcome == Cancelled ==> Cleared()
      ensures outcome != MissingEndpoints ==>
        NotNaN(dist) && NoHigher(dist, InitDistances(graph.nodes, config.startNode.value)) &&
        PrevSound(graph.edges, prev) && NoDup(order) && (forall x :: x in order ==> x in NodeIdSet(graph.nodes)) &&
        (forall e :: e in relaxed ==> e in graph.edges && e.source in order) &&
        Improving(InitDistances(graph.nodes, config.startNode.value), dist, prev, relaxed)
      ensures outcome == Completed || outcome == Diverged ==>
        Live(stopAt, 0) && viz.visited == Elems(order) && viz.visitedEdges == IdsOf(relaxed) &&
        PrevChain(prev, NodeIdOf(graph.nodes, config.endNode.value), chain) &&
        viz.path == PathNodes(graph.edges, prev, chain) && viz.pathEdges == PathEdgeIds(graph.edges, prev, chain) &&
        (outcome == Completed ==> ChainStops(prev, chain)) && (outcome == Diverged ==> ChainLoops(prev, chain))
      ensures (outcome == Completed || outcome == Diverged) && NodeIdOf(graph.nodes, config.endNode.value).Some? ==>
        order != [] && order[|order| - 1] == NodeIdOf(graph.nodes, config.endNode.value).value
      ensures (outcome == Completed || outcome == Diverged) && NodeIdOf(graph.nodes, config.endNode.value).Some? &&
              NonNegative(graph.edges) && Closed(graph) ==>
        IsShortest(graph.edges, StartIds(graph.nodes, config.startNode.value),
                   NodeIdOf(graph.nodes, config.endNode.value).value,
                   dist[NodeIdOf(graph.nodes, config.endNode.value).value])
    {
      ghost var g0, c0 := graph, config;
      active := true;
      isVisualizing := true;
      dist, prev, order := map[], map[], [];
      if config.startNode.None? || config.endNode.None? {
        StopVisualization();
        return MissingEndpoints, dist, prev, order, [], [];
      }
      viz := NoViz;
      outcome, dist, prev, order, chain, relaxed :=
        DijkstraRun(graph.nodes, graph.edges, config.startNode.value, config.endNode.value, stopAt);
      assert graph == g0 && config == c0;
    }

    /**
     * One turn of a Bellman-Ford pass: relax `e`, and when it lowered its
     * target, highlight it and pause.
     */
    method BellmanFordTurn(edges: seq<Edge>, e: Edge, ghost src: set<string>, ghost d0: map<string, Num>,
                           d1: map<string, Num>, prev1: map<string, string>, stopAt: Option<nat>, pauses0: nat,
                           ghost wit1: map<string, Walk>, ghost shown: set<string>)
      returns (d: map<string, Num>, prev: map<string, string>, lowered: bool, pauses: nat, ghost wit: map<string, Walk>)
      requires e in edges && Sound(edges, src, d0, d1, prev1, wit1)
      requires Live(stopAt, pauses0) && viz == VizSets({}, shown, {}, {})
      modifies this`active, this`isVisualizing, this`viz
      ensures Sound(edges, src, d0, d, prev, wit)
      ensures lowered <==> Relaxable(d1, e)
      ensures prev == if lowered then prev1[e.target := e.source] else prev1
      ensures !lowered ==> d == d1 && pauses == pauses0 && Live(stopAt, pauses) && viz == VizSets({}, shown, {}, {})
      ensures lowered ==> pauses == pauses0 + 1
      ensures lowered && active ==> Live(stopAt, pauses) && viz == VizSets({}, shown + {e.id}, {}, {})
      ensures !active ==> Cleared()
    {
      d, prev, lowered, wit := BellmanFordEdge(edges, e, d1, prev1, src, d0, wit1);
      pauses := pauses0;
      if lowered {
        pauses := ShowEdge(e.id, stopAt, pauses0, {}, shown);
      }
    }

    /**
     * The body of Bellman-Ford's pass loop at index `i`: relax `edges[i]`
     * and, when it lowered its target, record it among the pass's
     * highlighted edges.
     */
    method BellmanFordStep(edges: seq<Edge>, i: nat, ghost src: set<string>, ghost d0: map<string, Num>,
                           d1: map<string, Num>, prev1: map<string, string>, stopAt: Option<nat>, pauses0: nat,
                           ghost shown: set<string>, dIn: map<string, Num>, prevIn: map<string, string>,
                           pausesIn: nat, ghost witIn: map<string, Walk>, ghost relaxedIn: seq<Edge>)
      returns (d: map<string, Num>, prev: map<string, string>, pauses: nat, ghost wit: map<string, Walk>,
               ghost relaxed: seq<Edge>)
      requires i < |edges|
      requires Sound(edges, src, d0, dIn, prevIn, witIn) && prev1.Keys <= prevIn.Keys
      requires pausesIn == pauses0 + |relaxedIn| && forall e :: e in relaxedIn ==> e in edges && e.target in prevIn
      requires Live(stopAt, pausesIn) && viz == VizSets({}, shown + IdsOf(relaxedIn), {}, {})
      requires relaxedIn == [] ==> dIn == d1 && Quiet(d1, edges[..i])
      modifies this`active, this`isVisualizing, this`viz
      ensures Sound(edges, src, d0, d, prev, wit) && prev1.Keys <= prev.Keys
      ensures pauses == pauses0 + |relaxed| && forall e :: e in relaxed ==> e in edges && e.target in prev
      ensures !active ==> Cleared()
      ensures active ==> Live(stopAt, pauses) && viz == VizSets({}, shown + IdsOf(relaxed), {}, {})
      ensures relaxed == [] ==> d == d1 && Quiet(d1, edges[..i + 1])
    {
      var e := edges[i];
      var lowered;
      d, prev, lowered, pauses, wit := BellmanFordTurn(edges, e, src, d0, dIn, prevIn, stopAt, pausesIn, witIn, shown + IdsOf(relaxedIn));
      relaxed := if lowered then relaxedIn + [e] else relaxedIn;
      PassStep(edges, i, d1, dIn, d, prev1, prevIn, prev, relaxedIn, lowered);
      if lowered {
        ShownStep(shown, relaxedIn, e);
      }
    }

    /**
     * One pass of Bellman-Ford's `for (const edge of edges)`: relax each edge
     * in list order, highlighting and pausing after each one that lowered a
     * distance; a stop during a pause ends the pass.  A pass that lowers
     * nothing leaves no edge relaxable.
     */
    method BellmanFordPass(edges: seq<Edge>, ghost src: set<string>, ghost d0: map<string, Num>,
                           d1: map<string, Num>, prev1: map<string, string>, stopAt: Option<nat>, pauses0: nat,
                           ghost wit1: map<string, Walk>, ghost shown: set<string>)
      returns (d: map<string, Num>, prev: map<string, string>, pauses: nat, ghost wit: map<string, Walk>,
               ghost relaxed: seq<Edge>)
      requires Sound(edges, src, d0, d1, prev1, wit1) && Live(stopAt, pauses0) && viz == VizSets({}, shown, {}, {})
      modifies this`active, this`isVisualizing, this`viz
      ensures Sound(edges, src, d0, d, prev, wit) && prev1.Keys <= prev.Keys
      ensures pauses == pauses0 + |relaxed| && forall e :: e in relaxed ==> e in edges && e.target in prev
      ensures !active ==> Cleared()
      ensures active ==> Live(stopAt, pauses) && viz == VizSets({}, shown + IdsOf(relaxed), {}, {})
      ensures active && relaxed == [] ==> Quiet(d, edges)
    {
      d, prev, pauses, wit, relaxed := d1, prev1, pauses0, wit1, [];
      var i := 0;
      while i < |edges|
        invariant 0 <= i <= |edges|
        invariant Sound(edges, src, d0, d, prev, wit) && prev1.Keys <= prev.Keys
        invariant pauses == pauses0 + |relaxed| && forall e :: e in relaxed ==> e in edges && e.target in prev
        invariant Live(stopAt, pauses) && viz == VizSets({}, shown + IdsOf(relaxed), {}, {})
        invariant relaxed == [] ==> d == d1 && Quiet(d1, edges[..i])
      {
        d, prev, pauses, wit, relaxed := BellmanFordStep(edges, i, src, d0, d1, prev1, stopAt, pauses0, shown, d, prev, pauses, wit, relaxed);
        if !active {
          return;
        }
        i := i + 1;
      }
      assert edges[..|edges|] == edges;
    }

    /** Bellman-Ford's outer loop: up to `V - 1` passes, none started once a stop has taken effect. */
    method BellmanFordPasses(edges: seq<Edge>, ghost src: set<string>, d0: map<string, Num>, V: int,
                             stopAt: Option<nat>, ghost wit0: map<string, Walk>)
      returns (d: map<string, Num>, prev: map<string, string>, passes: nat, pauses: nat,
               ghost wit: map<string, Walk>, ghost relaxedAll: seq<Edge>)
      requires Sound(edges, src, d0, d0, map[], wit0) && Live(stopAt, 0) && viz == NoViz
      modifies this`active, this`isVisualizing, this`viz
      ensures Sound(edges, src, d0, d, prev, wit)
      ensures passes <= PassCount(V) && forall e :: e in relaxedAll ==> e in edges && e.target in prev
      ensures !active ==> Cleared()
      ensures active ==> passes == PassCount(V) && Live(stopAt, pauses) && viz == VizSets({}, IdsOf(relaxedAll), {}, {})
    {
      d, prev, passes, pauses, wit, relaxedAll := d0, map[], 0, 0, wit0, [];
      while passes < V - 1
        invariant passes <= PassCount(V)
        invariant Sound(edges, src, d0, d, prev, wit) && forall e :: e in relaxedAll ==> e in edges && e.target in prev
        invariant !active ==> Cleared()
        invariant active ==> Live(stopAt, pauses) && viz == VizSets({}, IdsOf(relaxedAll), {}, {})
        decreases V - 1 - passes
      {
        if !active {
          break;
        }
        ghost var relaxed;
        ghost var dBefore := d;
        d, prev, pauses, wit, relaxed := BellmanFordPass(edges, src, d0, d, prev, stopAt, pauses, wit, IdsOf(relaxedAll));
        IdsOfConcat(relaxedAll, relaxed);
        relaxedAll := relaxedAll + relaxed;
        passes := passes + 1;
      }
    }

    /**
     * `visualizeBellmanFord()`: `V - 1` passes over every edge, then the
     * negative-cycle check, which runs even after a stop and ends the run
     * (the `catch` calls `stopVisualization()`) when some edge can still be
     * relaxed.  A run that gets to the path display has no relaxable edge,
     * so with no dangling edge every distance is the shortest one.
     */
    method VisualizeBellmanFord(stopAt: Option<nat>)
      returns (outcome: Outcome, dist: map<string, Num>, prev: map<string, string>, passes: nat,
               ghost chain: seq<string>, ghost relaxed: seq<Edge>)
      requires Valid()
      modifies this`active, this`isVisualizing, this`viz
      ensures outcome == MissingEndpoints || outcome == Cancelled || outcome == NegativeCycle ||
              outcome == Completed || outcome == Diverged
      ensures outcome == MissingEndpoints <==> config.startNode.None? || config.endNode.None?
      ensures outcome == MissingEndpoints || outcome == Cancelled || outcome == NegativeCycle ==> Cleared()
      ensures outcome != MissingEndpoints ==>
        NotNaN(dist) && NoHigher(dist, InitDistances(graph.nodes, config.startNode.value)) &&
        PrevSound(graph.edges, prev) && passes <= PassCount(|graph.nodes|) &&
        (forall e :: e in relaxed ==> e in graph.edges) &&
        Improving(InitDistances(graph.nodes, config.startNode.value), dist, prev, relaxed)
      ensures outcome != MissingEndpoints ==>
        (outcome == NegativeCycle <==>
         exists e :: e in graph.edges && Relaxable(dist, e))
      ensures outcome == Completed || outcome == Diverged ==>
        passes == PassCount(|graph.nodes|) && Live(stopAt, 0) && viz.visited == {} && viz.visitedEdges == IdsOf(relaxed) &&
        PrevChain(prev, NodeIdOf(graph.nodes, config.endNode.value), chain) &&
        viz.path == PathNodes(graph.edges, prev, chain) && viz.pathEdges == PathEdgeIds(graph.edges, prev, chain) &&
        (outcome == Completed ==> ChainStops(prev, chain)) && (outcome == Diverged ==> ChainLoops(prev, chain))
      ensures (outcome == Completed || outcome == Diverged) && Closed(graph) ==>
        Triangle(graph.edges, dist) &&
        forall t :: t in dist ==> IsShortest(graph.edges, StartIds(graph.nodes, config.startNode.value), t, dist[t])
    {
      ghost var g0, c0 := graph, config;
      active := true;
      isVisualizing := true;
      dist, prev, passes := map[], map[], 0;
      if config.startNode.None? || config.endNode.None? {
        StopVisualization();
        return MissingEndpoints, dist, prev, passes, [], [];
      }
      viz := NoViz;
      var nodes, edges := graph.nodes, graph.edges;
      var start := config.startNode.value;
      ghost var src := StartIds(nodes, start);
      var d0 := Initialize(nodes, start);
      SoundInit(edges, nodes, start);
      var pauses;
      ghost var wit;
      dist, prev, passes, pauses, wit, relaxed :=
        BellmanFordPasses(edges, src, d0, |nodes|, stopAt, StartWalks(src));
      TargetsImproving(d0, dist, prev, relaxed);
      var found := FindRelaxable(edges, dist);
      if found {
        StopVisualization();
        return NegativeCycle, dist, prev, passes, [], relaxed;
      }
      if !active {
        return Cancelled, dist, prev, passes, [], relaxed;
      }
      if Closed(graph) {
        assert dist.Keys == NodeIdSet(nodes);
        AllShortest(edges, src, d0, dist, prev, wit);
      }
      var endId := NodeIdOf(nodes, config.endNode.value);
      outcome, pauses, chain := ShowPath(edges, prev, endId, stopAt, pauses, viz.visited, viz.visitedEdges);
      assert graph == g0 && config == c0;
    }

    /**
     * One turn of SPFA's inner loop: relax `e` out of `cur`; when it lowered
     * its target, highlight it, queue the target unless it is queued, and
     * pause.
     */
    method SpfaTurn(edges: seq<Edge>, cur: string, e: Edge, rest: seq<Edge>,
                    d1: map<string, Num>, prev1: map<string, string>, queue1: seq<string>, inQueue1: set<string>,
                    stopAt: Option<nat>, pauses0: nat, ghost src: set<string>, ghost d0: map<string, Num>,
                    ghost wit1: map<string, Walk>, ghost vis: set<string>, ghost shown: set<string>)
      returns (d: map<string, Num>, prev: map<string, string>, queue: seq<string>, inQueue: set<string>,
               lowered: bool, pauses: nat, ghost wit: map<string, Walk>)
      requires e in edges && e.source == cur
      requires Sound(edges, src, d0, d1, prev1, wit1) && QueueOk(d1, queue1, inQueue1)
      requires Pending(edges, d1, queue1, [e] + rest)
      requires Live(stopAt, pauses0) && viz == VizSets(vis, shown, {}, {})
      modifies this`active, this`isVisualizing, this`viz
      ensures Sound(edges, src, d0, d, prev, wit) && QueueOk(d, queue, inQueue)
      ensures Pending(edges, d, queue, rest)
      ensures lowered <==> Relaxable(d1, e)
      ensures prev == if lowered then prev1[e.target := cur] else prev1
      ensures !lowered ==> pauses == pauses0 && Live(stopAt, pauses) && viz == VizSets(vis, shown, {}, {})
      ensures lowered ==> pauses == pauses0 + 1
      ensures lowered && active ==> Live(stopAt, pauses) && viz == VizSets(vis, shown + {e.id}, {}, {})
      ensures !active ==> Cleared()
    {
      d, prev, queue, inQueue, lowered, wit := SpfaEdge(edges, cur, e, rest, d1, prev1, queue1, inQueue1, src, d0, wit1);
      pauses := pauses0;
      if lowered {
        pauses := ShowEdge(e.id, stopAt, pauses0, vis, shown);
      }
    }

    /**
     * The body of SPFA's inner loop at index `j` of the outgoing edges `out`:
     * relax `out[j]` and, when it lowered its target, record it among the
     * highlighted edges.
     */
    method SpfaStep(edges: seq<Edge>, cur: string, out: seq<Edge>, j: nat, prev1: map<string, string>,
                    stopAt: Option<nat>, ghost src: set<string>, ghost d0: map<string, Num>,
                    ghost vis: set<string>, ghost shown: set<string>,
                    dIn: map<string, Num>, prevIn: map<string, string>, queueIn: seq<string>, inQueueIn: set<string>,
                    pausesIn: nat, ghost witIn: map<string, Walk>, ghost relaxedIn: seq<Edge>)
      returns (d: map<string, Num>, prev: map<string, string>, queue: seq<string>, inQueue: set<string>,
               pauses: nat, ghost wit: map<string, Walk>, ghost relaxed: seq<Edge>)
      requires j < |out| && out[j] in edges && out[j].source == cur
      requires Sound(edges, src, d0, dIn, prevIn, witIn) && QueueOk(dIn, queueIn, inQueueIn)
      requires Pending(edges, dIn, queueIn, out[j..])
      requires forall e :: e in relaxedIn ==> e in edges && e.source == cur && e.target in prevIn
      requires prev1.Keys <= prevIn.Keys
      requires Live(stopAt, pausesIn) && viz == VizSets(vis, shown + IdsOf(relaxedIn), {}, {})
      modifies this`active, this`isVisualizing, this`viz
      ensures Sound(edges, src, d0, d, prev, wit) && QueueOk(d, queue, inQueue)
      ensures Pending(edges, d, queue, out[j + 1..])
      ensures forall e :: e in relaxed ==> e in edges && e.source == cur && e.target in prev
      ensures prev1.Keys <= prev.Keys
      ensures !active ==> Cleared()
      ensures active ==> Live(stopAt, pauses) && viz == VizSets(vis, shown + IdsOf(relaxed), {}, {})
    {
      var e := out[j];
      SuffixCons(out, j);
      var lowered;
      d, prev, queue, inQueue, lowered, pauses, wit :=
        SpfaTurn(edges, cur, e, out[j + 1..], dIn, prevIn, queueIn, inQueueIn, stopAt, pausesIn, src, d0, witIn, vis,
                 shown + IdsOf(relaxedIn));
      relaxed := if lowered then relaxedIn + [e] else relaxedIn;
      OutStep(edges, cur, e, prev1, prevIn, prev, relaxedIn, lowered);
      if lowered {
        ShownStep(shown, relaxedIn, e);
      }
    }

    /**
     * SPFA's `for (const edge of edges.filter(e => e.source === currentId))`.
     * Once it has run to the end, nothing is pending but queued ids.
     */
    method SpfaRelax(edges: seq<Edge>, cur: string,
                     d1: map<string, Num>, prev1: map<string, string>, queue1: seq<string>, inQueue1: set<string>,
                     stopAt: Option<nat>, pauses0: nat, ghost src: set<string>, ghost d0: map<string, Num>,
                     ghost wit1: map<string, Walk>, ghost vis: set<string>, ghost shown: set<string>)
      returns (d: map<string, Num>, prev: map<string, string>, queue: seq<string>, inQueue: set<string>,
               pauses: nat, ghost wit: map<string, Walk>, ghost relaxed: seq<Edge>)
      requires Sound(edges, src, d0, d1, prev1, wit1) && QueueOk(d1, queue1, inQueue1)
      requires Pending(edges, d1, queue1, OutEdges(edges, cur))
      requires Live(stopAt, pauses0) && viz == VizSets(vis, shown, {}, {})
      modifies this`active, this`isVisualizing, this`viz
      ensures Sound(edges, src, d0, d, prev, wit) && QueueOk(d, queue, inQueue)
      ensures prev1.Keys <= prev.Keys
      ensures forall e :: e in relaxed ==> e in edges && e.source == cur && e.target in prev
      ensures !active ==> Cleared()
      ensures active ==> Pending(edges, d, queue, []) &&
                         Live(stopAt, pauses) && viz == VizSets(vis, shown + IdsOf(relaxed), {}, {})
    {
      var out := OutEdges(edges, cur);
      OutEdgesAre(edges, cur);
      d, prev, queue, inQueue, pauses, wit, relaxed := d1, prev1, queue1, inQueue1, pauses0, wit1, [];
      var j := 0;
      while j < |out|
        invariant 0 <= j <= |out|
        invariant Sound(edges, src, d0, d, prev, wit) && QueueOk(d, queue, inQueue)
        invariant Pending(edges, d, queue, out[j..])
        invariant forall e :: e in relaxed ==> e in edges && e.source == cur && e.target in prev
        invariant prev1.Keys <= prev.Keys
        invariant Live(stopAt, pauses) && viz == VizSets(vis, shown + IdsOf(relaxed), {}, {})
      {
        d, prev, queue, inQueue, pauses, wit, relaxed :=
          SpfaStep(edges, cur, out, j, prev1, stopAt, src, d0, vis, shown, d, prev, queue, inQueue, pauses, wit, relaxed);
        if !active {
          return;
        }
        j := j + 1;
      }
    }

    /**
     * One round of SPFA's main loop: `queue.shift()`, `inQueue.delete`,
     * highlight the node and pause, then relax its outgoing edges.
     */
    method SpfaRound(edges: seq<Edge>, ghost src: set<string>, ghost d0: map<string, Num>, stopAt: Option<nat>,
                     d1: map<string, Num>, prev1: map<string, string>, queue1: seq<string>, inQueue1: set<string>,
                     order1: seq<string>, pauses0: nat, ghost wit1: map<string, Walk>, ghost relaxed1: seq<Edge>)
      returns (d: map<string, Num>, prev: map<string, string>, queue: seq<string>, inQueue: set<string>,
               order: seq<string>, pauses: nat, ghost wit: map<string, Walk>, ghost relaxedAll: seq<Edge>)
      requires queue1 != []
      requires Sound(edges, src, d0, d1, prev1, wit1) && QueueOk(d1, queue1, inQueue1) && Pending(edges, d1, queue1, [])
      requires forall x :: x in order1 ==> x in d0
      requires forall e :: e in relaxed1 ==> e in edges && e.source in order1 && e.target in prev1
      requires Live(stopAt, pauses0) && viz == VizSets(Elems(order1), IdsOf(relaxed1), {}, {})
      modifies this`active, this`isVisualizing, this`viz
      ensures order == order1 + [queue1[0]]
      ensures Sound(edges, src, d0, d, prev, wit) && QueueOk(d, queue, inQueue)
      ensures forall x :: x in order ==> x in d0
      ensures forall e :: e in relaxedAll ==> e in edges && e.source in order && e.target in prev
      ensures !active ==> Cleared()
      ensures active ==> Pending(edges, d, queue, []) &&
                         Live(stopAt, pauses) && viz == VizSets(Elems(order), IdsOf(relaxedAll), {}, {})
    {
      var cur := queue1[0];
      SpfaDequeue(edges, d1, queue1, inQueue1);
      queue, inQueue := queue1[1..], inQueue1 - {cur};
      d, prev, wit, relaxedAll := d1, prev1, wit1, relaxed1;
      viz := viz.(visited := viz.visited + {cur});
      order := order1 + [cur];
      assert Elems(order) == Elems(order1) + {cur};
      pauses := Sleep(stopAt, pauses0);
      if !active {
        return;
      }
      ghost var relaxed;
      d, prev, queue, inQueue, pauses, wit, relaxed :=
        SpfaRelax(edges, cur, d, prev, queue, inQueue, stopAt, pauses, src, d0, wit, Elems(order), IdsOf(relaxedAll));
      IdsOfConcat(relaxedAll, relaxed);
      relaxedAll := relaxedAll + relaxed;
    }

    /**
     * SPFA's main loop, given `fuel` rounds: with a negative cycle the
     * source never empties its queue, and `exhausted` reports that the fuel
     * ran out first.  A loop that ends with an empty queue leaves nothing
     * pending.
     */
    method SpfaLoop(edges: seq<Edge>, ghost src: set<string>, d0: map<string, Num>, queue0: seq<string>,
                    stopAt: Option<nat>, fuel: nat, ghost wit0: map<string, Walk>)
      returns (d: map<string, Num>, prev: map<string, string>, order: seq<string>, pauses: nat, exhausted: bool,
               ghost wit: map<string, Walk>, ghost relaxedAll: seq<Edge>)
      requires Sound(edges, src, d0, d0, map[], wit0) && QueueOk(d0, queue0, Elems(queue0)) && Pending(edges, d0, queue0, [])
      requires Live(stopAt, 0) && viz == NoViz
      modifies this`active, this`isVisualizing, this`viz
      ensures Sound(edges, src, d0, d, prev, wit)
      ensures forall x :: x in order ==> x in d0
      ensures forall e :: e in relaxedAll ==> e in edges && e.source in order && e.target in prev
      ensures !active ==> Cleared() && !exhausted
      ensures active ==> Live(stopAt, pauses) && viz == VizSets(Elems(order), IdsOf(relaxedAll), {}, {})
      ensures active && !exhausted ==> Pending(edges, d, [], [])
    {
      d, prev, order, pauses, exhausted, wit, relaxedAll := d0, map[], [], 0, false, wit0, [];
      var queue, inQueue := queue0, Elems(queue0);
      var left := fuel;
      while queue != [] && active
        invariant Sound(edges, src, d0, d, prev, wit) && QueueOk(d, queue, inQueue)
        invariant forall x :: x in order ==> x in d0
        invariant forall e :: e in relaxedAll ==> e in edges && e.source in order && e.target in prev
        invariant !active ==> Cleared()
        invariant active ==> Pending(edges, d, queue, []) &&
                             Live(stopAt, pauses) && viz == VizSets(Elems(order), IdsOf(relaxedAll), {}, {})
        invariant !exhausted
        decreases left
      {
        if left == 0 {
          exhausted := true;
          return;
        }
        left := left - 1;
        d, prev, queue, inQueue, order, pauses, wit, relaxedAll :=
          SpfaRound(edges, src, d0, stopAt, d, prev, queue, inQueue, order, pauses, wit, relaxedAll);
      }
    }

    /**
     * `visualizeSPFA()`, with at most `fuel` rounds of its main loop.  A
     * run that empties its queue has every distance at the relaxation
     * fixpoint, so with no dangling edge every distance is the shortest one.
     */
    method VisualizeSPFA(stopAt: Option<nat>, fuel: nat)
      returns (outcome: Outcome, dist: map<string, Num>, prev: map<string, string>, order: seq<string>,
               ghost chain: seq<string>, ghost relaxed: seq<Edge>)
      requires Valid()
      modifies this`active, this`isVisualizing, this`viz
      ensures outcome == MissingEndpoints || outcome == Cancelled || outcome == OutOfFuel ||
              outcome == Completed || outcome == Diverged
      ensures outcome == MissingEndpoints <==> config.startNode.None? || config.endNode.None?
      ensures outcome == MissingEndpoints || outcome == Cancelled ==> Cleared()
      ensures outcome != MissingEndpoints ==>
        NotNaN(dist) && NoHigher(dist, InitDistances(graph.nodes, config.startNode.value)) &&
        PrevSound(graph.edges, prev) && (forall x :: x in order ==> x in NodeIdSet(graph.nodes)) &&
        (forall e :: e in relaxed ==> e in graph.edges && e.source in order) &&
        Improving(InitDistances(graph.nodes, config.startNode.value), dist, prev, relaxed)
      ensures outcome == OutOfFuel ==> Live(stopAt, 0) && viz.visited == Elems(order) && viz.visitedEdges == IdsOf(relaxed)
      ensures outcome == Completed || outcome == Diverged ==>
        Live(stopAt, 0) && viz.visited == Elems(order) && viz.visitedEdges == IdsOf(relaxed) &&
        PrevChain(prev, NodeIdOf(graph.nodes, config.endNode.value), chain) &&
        viz.path == PathNodes(graph.edges, prev, chain) && viz.pathEdges == PathEdgeIds(graph.edges, prev, chain) &&
        (outcome == Completed ==> ChainStops(prev, chain)) && (outcome == Diverged ==> ChainLoops(prev, chain))
      ensures (outcome == Completed || outcome == Diverged) && Closed(graph) ==>
        Triangle(graph.edges, dist) &&
        forall t :: t in dist ==> IsShortest(graph.edges, StartIds(graph.nodes, config.startNode.value), t, dist[t])
    {
      ghost var g0, c0 := graph, config;
      active := true;
      isVisualizing := true;
      dist, prev, order := map[], map[], [];
      if config.startNode.None? || config.endNode.None? {
        StopVisualization();
        return MissingEndpoints, dist, prev, order, [], [];
      }
      viz := NoViz;
      var nodes, edges := graph.nodes, graph.edges;
      var start := config.startNode.value;
      ghost var src := StartIds(nodes, start);
      var d0, queue, inQueue := SpfaInitialize(nodes, start);
      SoundInit(edges, nodes, start);
      SpfaInit(edges, nodes, start);
      var pauses, exhausted;
      ghost var wit;
      dist, prev, order, pauses, exhausted, wit, relaxed := SpfaLoop(edges, src, d0, queue, stopAt, fuel, StartWalks(src));
      TargetsImproving(d0, dist, prev, relaxed);
      if exhausted {
        return OutOfFuel, dist, prev, order, [], relaxed;
      }
      if !active {
        return Cancelled, dist, prev, order, [], relaxed;
      }
      if Closed(graph) {
        assert dist.Keys == NodeIdSet(nodes);
        PendingDone(edges, dist);
        AllShortest(edges, src, d0, dist, prev, wit);
      }
      var endId := NodeIdOf(nodes, config.endNode.value);
      outcome, pauses, chain := ShowPath(edges, prev, endId, stopAt, pauses, viz.visited, viz.visitedEdges);
      assert graph == g0 && config == c0;
    }
  }
}
