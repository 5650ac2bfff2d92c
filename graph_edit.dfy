/**
 * The graph edits of the `useGraph` hook as functions on the node and
 * edge lists: placing a node (spacing check, next number), deleting nodes
 * and edges, changing a weight or a position, completing an edge drag,
 * and choosing the start and end nodes.  The lemmas show which shape
 * properties of the graph each edit keeps.
 */
module GraphEdit {
  import opened Js
  import opened Seqs
  import opened GraphTypes

  /** The drawn radius of a node; two nodes must be two radii apart. */
  const NodeRadius: real := 15.0

  /**
   * The node is closer than two radii to the point.  The distance test
   * `sqrt(dx^2 + dy^2) < 30` is compared squared, which is the same test
   * on non-negative reals.
   */
  predicate TooClose(n: Node, x: real, y: real) {
    (n.x - x) * (n.x - x) + (n.y - y) * (n.y - y) < (2.0 * NodeRadius) * (2.0 * NodeRadius)
  }

  /** `isPositionOccupied(x, y)`: some node is too close to the point. */
  function IsPositionOccupied(nodes: seq<Node>, x: real, y: real): (r: bool)
    ensures r <==> exists i :: 0 <= i < |nodes| && TooClose(nodes[i], x, y)
  {
    Any(nodes, (n: Node) => TooClose(n, x, y))
  }

  /** No two nodes are closer than two radii. */
  predicate Spaced(nodes: seq<Node>) {
    Pairwise(nodes, Apart)
  }

  /** `b` was placed clear of `a`. */
  predicate Apart(a: Node, b: Node) {
    !TooClose(a, b.x, b.y)
  }

  /** `Math.max(...nodes.map(node => node.number))` on a non-empty list. */
  function MaxNumber(nodes: seq<Node>): (m: int)
    requires nodes != []
    ensures forall i :: 0 <= i < |nodes| ==> nodes[i].number <= m
    ensures exists i :: 0 <= i < |nodes| && nodes[i].number == m
  {
    if |nodes| == 1 then nodes[0].number
    else
      var m := MaxNumber(nodes[..|nodes| - 1]);
      var last := nodes[|nodes| - 1].number;
      assert forall i :: 0 <= i < |nodes| - 1 ==> nodes[i] == nodes[..|nodes| - 1][i];
      if last > m then last else m
  }

  /** `getNextNodeNumber()`: 0 for an empty graph, otherwise one more than the largest number. */
  function NextNodeNumber(nodes: seq<Node>): (r: int)
    ensures nodes == [] ==> r == 0
    ensures forall i :: 0 <= i < |nodes| ==> nodes[i].number < r
    ensures nodes != [] ==> exists i :: 0 <= i < |nodes| && nodes[i].number == r - 1
  {
    if nodes == [] then 0 else MaxNumber(nodes) + 1
  }

  /** The node `addNode(x, y)` appends, given the fresh id it receives. */
  function NewNode(nodes: seq<Node>, id: string, x: real, y: real): Node {
    Node(id, x, y, NextNodeNumber(nodes))
  }

  /** The graph invariant every edit except position updates respects: ids and numbers are unique, edges are simple. */
  predicate ValidGraph(g: Graph) {
    NodeIdsUnique(g.nodes) && NumbersUnique(g.nodes) &&
    EdgeIdsUnique(g.edges) && NoSelfLoops(g.edges) && OneEdgePerPair(g.edges)
  }

  lemma NodeIdsAreIdSet(nodes: seq<Node>)
    ensures forall x :: x in NodeIds(nodes) <==> x in NodeIdSet(nodes)
  {
    forall x | x in NodeIdSet(nodes) ensures x in NodeIds(nodes) {
      var n :| n in nodes && n.id == x;
      var i :| 0 <= i < |nodes| && nodes[i] == n;
      assert NodeIds(nodes)[i] == x;
    }
  }

  /** No edge refers to a node that is not in the graph. */
  predicate Closed(g: Graph) {
    EdgesWithin(g.edges, NodeIdSet(g.nodes))
  }

  /** Node numbers are never negative. */
  predicate NumbersNatural(nodes: seq<Node>) {
    forall n :: n in nodes ==> n.number >= 0
  }

  /** Appending the new node keeps ids, numbers and spacing intact, and the graph closed. */
  lemma AddNodeKeepsInvariant(g: Graph, id: string, x: real, y: real)
    requires ValidGraph(g) && id !in NodeIdSet(g.nodes) && !IsPositionOccupied(g.nodes, x, y)
    ensures ValidGraph(Graph(g.nodes + [NewNode(g.nodes, id, x, y)], g.edges))
    ensures Closed(g) ==> Closed(Graph(g.nodes + [NewNode(g.nodes, id, x, y)], g.edges))
    ensures NumbersNatural(g.nodes) ==> NumbersNatural(g.nodes + [NewNode(g.nodes, id, x, y)])
    ensures Spaced(g.nodes) ==> Spaced(g.nodes + [NewNode(g.nodes, id, x, y)])
  {
    var n := NewNode(g.nodes, id, x, y);
    forall i | 0 <= i < |g.nodes| ensures g.nodes[i].id != id {
      assert g.nodes[i] in g.nodes;
    }
    PairwiseAppend(g.nodes, n, OtherId);
    PairwiseAppend(g.nodes, n, OtherNumber);
    if Spaced(g.nodes) {
      PairwiseAppend(g.nodes, n, Apart);
    }
    if Closed(g) {
      AddNodeClosed(g.nodes, n, g.edges);
    }
    if NumbersNatural(g.nodes) && g.nodes != [] {
      var i :| 0 <= i < |g.nodes| && g.nodes[i].number == NextNodeNumber(g.nodes) - 1;
      assert g.nodes[i] in g.nodes;
    }
  }

  /** Adding a node keeps every edge's ends among the node ids. */
  lemma AddNodeClosed(nodes: seq<Node>, n: Node, edges: seq<Edge>)
    requires EdgesWithin(edges, NodeIdSet(nodes))
    ensures EdgesWithin(edges, NodeIdSet(nodes + [n]))
  {
    assert NodeIdSet(nodes) <= NodeIdSet(nodes + [n]);
  }

  // ----- deleting -----

  /** `nodes.filter(n => n.id !== nodeId)`. */
  function RemoveNode(nodes: seq<Node>, id: string): seq<Node> {
    Filter(nodes, (n: Node) => n.id != id)
  }

  /** `edges.filter(e => e.source !== nodeId && e.target !== nodeId)`. */
  function RemoveIncident(edges: seq<Edge>, id: string): seq<Edge> {
    Filter(edges, (e: Edge) => e.source != id && e.target != id)
  }

  /** `edges.filter(e => e.id !== edgeId)`. */
  function RemoveEdge(edges: seq<Edge>, id: string): seq<Edge> {
    Filter(edges, (e: Edge) => e.id != id)
  }

  /** Deleting a node keeps the graph valid, and a closed graph stays closed: no dangling edge is left. */
  lemma DeleteNodeKeepsInvariant(g: Graph, id: string)
    requires ValidGraph(g)
    ensures ValidGraph(Graph(RemoveNode(g.nodes, id), RemoveIncident(g.edges, id)))
    ensures Closed(g) ==> Closed(Graph(RemoveNode(g.nodes, id), RemoveIncident(g.edges, id)))
  {
    FilterPairwise(g.nodes, (n: Node) => n.id != id, OtherId);
    FilterPairwise(g.nodes, (n: Node) => n.id != id, OtherNumber);
    FilterPairwise(g.edges, (e: Edge) => e.source != id && e.target != id, OtherEdgeId);
    FilterPairwise(g.edges, (e: Edge) => e.source != id && e.target != id, DistinctPairs);
    if Closed(g) {
      var ns, es := RemoveNode(g.nodes, id), RemoveIncident(g.edges, id);
      forall e | e in es ensures e.source in NodeIdSet(ns) && e.target in NodeIdSet(ns) {
        var a :| a in g.nodes && a.id == e.source;
        var b :| b in g.nodes && b.id == e.target;
        assert a in ns && b in ns;
      }
    }
  }

  /** Deleting an edge keeps the graph valid and closed. */
  lemma DeleteEdgeKeepsInvariant(g: Graph, id: string)
    requires ValidGraph(g)
    ensures ValidGraph(Graph(g.nodes, RemoveEdge(g.edges, id)))
    ensures Closed(g) ==> Closed(Graph(g.nodes, RemoveEdge(g.edges, id)))
  {
    FilterPairwise(g.edges, (e: Edge) => e.id != id, OtherEdgeId);
    FilterPairwise(g.edges, (e: Edge) => e.id != id, DistinctPairs);
  }

  /** With unique ids, deleting a node that exists removes exactly one node. */
  lemma {:induction false} DeleteNodeCount(nodes: seq<Node>, id: string)
    requires NodeIdsUnique(nodes) && FindNode(nodes, id).Some?
    ensures |RemoveNode(nodes, id)| == |nodes| - 1
  {
    assert nodes != [];
    if nodes[0].id == id {
      forall n | n in nodes[1..] ensures n.id != id {
        var j :| 0 <= j < |nodes| - 1 && nodes[1..][j] == n;
        assert nodes[j + 1] == n;
      }
      FilterAll(nodes[1..], (n: Node) => n.id != id);
    } else {
      assert NodeIdsUnique(nodes[1..]) by {
        forall i, j | 0 <= i < j < |nodes| - 1 ensures nodes[1..][i].id != nodes[1..][j].id {
          assert nodes[1..][i] == nodes[i + 1] && nodes[1..][j] == nodes[j + 1];
        }
      }
      var n := FindNode(nodes, id).value;
      var k :| 0 <= k < |nodes| && nodes[k] == n;
      assert nodes[1..][k - 1] == n;
      assert FindNode(nodes[1..], id).Some?;
      DeleteNodeCount(nodes[1..], id);
    }
  }

  /** With unique ids, deleting an edge that exists removes exactly one edge. */
  lemma {:induction false} DeleteEdgeCount(edges: seq<Edge>, id: string, k: nat)
    requires EdgeIdsUnique(edges) && k < |edges| && edges[k].id == id
    ensures |RemoveEdge(edges, id)| == |edges| - 1
  {
    if k == 0 {
      forall e | e in edges[1..] ensures e.id != id {
        var j :| 0 <= j < |edges| - 1 && edges[1..][j] == e;
        assert edges[j + 1] == e;
      }
      FilterAll(edges[1..], (e: Edge) => e.id != id);
    } else {
      assert EdgeIdsUnique(edges[1..]) by {
        forall i, j | 0 <= i < j < |edges| - 1 ensures edges[1..][i].id != edges[1..][j].id {
          assert edges[1..][i] == edges[i + 1] && edges[1..][j] == edges[j + 1];
        }
      }
      assert edges[0].id != id;
      assert edges[1..][k - 1] == edges[k];
      DeleteEdgeCount(edges[1..], id, k - 1);
    }
  }

  /** Deleting a node clears the start or end selection that named its number, and only that. */
  function ConfigAfterDelete(config: GraphConfig, deleted: Option<Node>): (r: GraphConfig)
    ensures deleted.None? ==> r == config
    ensures deleted.Some? && config.startNode == Some(deleted.value.number) ==> r.startNode.None?
    ensures deleted.Some? && config.endNode == Some(deleted.value.number) ==> r.endNode.None?
    ensures r.startNode == config.startNode || r.startNode.None?
    ensures r.endNode == config.endNode || r.endNode.None?
  {
    match deleted
    case None => config
    case Some(n) =>
      GraphConfig(if config.startNode == Some(n.number) then None else config.startNode,
                  if config.endNode == Some(n.number) then None else config.endNode)
  }

  /** `isValidNodeNumber(num)`: some node carries the number. */
  function IsValidNodeNumber(nodes: seq<Node>, num: int): (r: bool)
    ensures r <==> exists i :: 0 <= i < |nodes| && nodes[i].number == num
  {
    Any(nodes, (n: Node) => n.number == num)
  }

  /** The selection names only numbers that some node carries. */
  predicate ConfigLive(config: GraphConfig, nodes: seq<Node>) {
    (config.startNode.Some? ==> IsValidNodeNumber(nodes, config.startNode.value)) &&
    (config.endNode.Some? ==> IsValidNodeNumber(nodes, config.endNode.value))
  }

  /** After a node is deleted and its number unselected, the selection still names live nodes only. */
  lemma DeleteNodeKeepsConfigLive(nodes: seq<Node>, config: GraphConfig, id: string)
    requires NodeIdsUnique(nodes) && NumbersUnique(nodes) && ConfigLive(config, nodes)
    ensures ConfigLive(ConfigAfterDelete(config, FindNode(nodes, id)), RemoveNode(nodes, id))
  {
    var c := ConfigAfterDelete(config, FindNode(nodes, id));
    var r := RemoveNode(nodes, id);
    forall num | (c.startNode == Some(num) || c.endNode == Some(num))
      ensures IsValidNodeNumber(r, num)
    {
      var i :| 0 <= i < |nodes| && nodes[i].number == num;
      FoundIsOnly(nodes, id, i);
      assert nodes[i] in r;
      var k :| 0 <= k < |r| && r[k] == nodes[i];
    }
  }

  /** With unique ids, the node `find` returns is the only one carrying the id. */
  lemma FoundIsOnly(nodes: seq<Node>, id: string, i: int)
    requires NodeIdsUnique(nodes) && 0 <= i < |nodes|
    ensures nodes[i].id == id ==> FindNode(nodes, id) == Some(nodes[i])
  {
    if nodes[i].id == id {
      var j := FindIndex(nodes, (n: Node) => n.id == id).value;
      assert !OtherId(nodes[j], nodes[i]);
    }
  }

  // ----- updates in place -----

  /** `edges.map(e => e.id === edgeId ? { ...e, weight } : e)`. */
  function SetWeight(edges: seq<Edge>, id: string, w: int): (r: seq<Edge>)
    ensures |r| == |edges|
    ensures forall i :: 0 <= i < |edges| ==>
      r[i] == if edges[i].id == id then edges[i].(weight := w) else edges[i]
  {
    seq(|edges|, i requires 0 <= i < |edges| => if edges[i].id == id then edges[i].(weight := w) else edges[i])
  }

  /** `nodes.map(n => n.id === nodeId ? { ...n, x, y } : n)`. */
  function MoveNode(nodes: seq<Node>, id: string, x: real, y: real): (r: seq<Node>)
    ensures |r| == |nodes|
    ensures forall i :: 0 <= i < |nodes| ==>
      r[i] == if nodes[i].id == id then nodes[i].(x := x, y := y) else nodes[i]
  {
    seq(|nodes|, i requires 0 <= i < |nodes| => if nodes[i].id == id then nodes[i].(x := x, y := y) else nodes[i])
  }

  /** A weight change leaves ids and endpoints alone, so it keeps the graph valid and closed; the weight is stored as given. */
  lemma SetWeightKeepsInvariant(g: Graph, id: string, w: int)
    requires ValidGraph(g)
    ensures ValidGraph(Graph(g.nodes, SetWeight(g.edges, id, w)))
    ensures Closed(g) ==> Closed(Graph(g.nodes, SetWeight(g.edges, id, w)))
    ensures forall e :: e in SetWeight(g.edges, id, w) && e.id == id ==> e.weight == w
  {
    var r := SetWeight(g.edges, id, w);
    forall e | e in r ensures exists f :: f in g.edges && f.id == e.id && f.source == e.source && f.target == e.target {
      var i :| 0 <= i < |r| && r[i] == e;
      assert g.edges[i] in g.edges;
    }
  }

  /** A move changes only coordinates, so it keeps the graph valid, closed and its selection live. */
  lemma MoveNodeKeepsInvariant(g: Graph, config: GraphConfig, id: string, x: real, y: real)
    requires ValidGraph(g)
    ensures ValidGraph(Graph(MoveNode(g.nodes, id, x, y), g.edges))
    ensures NodeIdSet(MoveNode(g.nodes, id, x, y)) == NodeIdSet(g.nodes)
    ensures Closed(g) ==> Closed(Graph(MoveNode(g.nodes, id, x, y), g.edges))
    ensures ConfigLive(config, g.nodes) ==> ConfigLive(config, MoveNode(g.nodes, id, x, y))
  {
    var r := MoveNode(g.nodes, id, x, y);
    forall k | k in NodeIdSet(g.nodes) ensures k in NodeIdSet(r) {
      var n :| n in g.nodes && n.id == k;
      var i :| 0 <= i < |g.nodes| && g.nodes[i] == n;
      assert r[i] in r;
    }
    forall k | k in NodeIdSet(r) ensures k in NodeIdSet(g.nodes) {
      var n :| n in r && n.id == k;
      var i :| 0 <= i < |r| && r[i] == n;
      assert g.nodes[i] in g.nodes;
    }
    if ConfigLive(config, g.nodes) {
      forall num | IsValidNodeNumber(g.nodes, num) ensures IsValidNodeNumber(r, num) {
        var i :| 0 <= i < |g.nodes| && g.nodes[i].number == num;
        assert r[i].number == num;
      }
    }
  }

  // ----- edge drag -----

  /** The edge joins `a` and `b`, in either direction. */
  predicate Joins(e: Edge, a: string, b: string) {
    (e.source == a && e.target == b) || (e.source == b && e.target == a)
  }

  /** The `edges.some(...)` test of `completeDrag`: an edge joins `a` and `b`. */
  function EdgeExists(edges: seq<Edge>, a: string, b: string): (r: bool)
    ensures r <==> exists i :: 0 <= i < |edges| && Joins(edges[i], a, b)
  {
    Any(edges, (e: Edge) => Joins(e, a, b))
  }

  /** `completeDrag(target)` adds an edge: both ends are truthy ids, they differ, and no edge joins them yet. */
  predicate Connects(source: Option<string>, target: Option<string>, edges: seq<Edge>) {
    Truthy(source) && Truthy(target) && source.value != target.value &&
    !EdgeExists(edges, source.value, target.value)
  }

  /** The edge a successful drag appends, with its fresh id and the default weight 1. */
  function DragEdge(id: string, source: string, target: string): Edge {
    Edge(id, source, target, 1)
  }

  /** A successful connection keeps the edge list simple, and keeps a closed graph closed when both ends are live. */
  lemma ConnectKeepsInvariant(g: Graph, source: Option<string>, target: Option<string>, id: string)
    requires ValidGraph(g) && Connects(source, target, g.edges)
    requires forall e :: e in g.edges ==> e.id != id
    ensures ValidGraph(Graph(g.nodes, g.edges + [DragEdge(id, source.value, target.value)]))
    ensures Closed(g) && source.value in NodeIdSet(g.nodes) && target.value in NodeIdSet(g.nodes) ==>
      Closed(Graph(g.nodes, g.edges + [DragEdge(id, source.value, target.value)]))
  {
    var s := g.edges + [DragEdge(id, source.value, target.value)];
    forall i | 0 <= i < |g.edges| ensures s[i] == g.edges[i] && s[i].id != id &&
      DistinctPairs(s[i], DragEdge(id, source.value, target.value))
    {
      assert g.edges[i] in g.edges;
    }
  }

  /** Completing the same drag again, in either direction, adds nothing: the test is idempotent. */
  lemma ConnectOnce(edges: seq<Edge>, a: string, b: string, id: string)
    ensures !Connects(Some(a), Some(b), edges + [DragEdge(id, a, b)])
    ensures !Connects(Some(b), Some(a), edges + [DragEdge(id, a, b)])
  {
    var s := edges + [DragEdge(id, a, b)];
    assert s[|edges|] == DragEdge(id, a, b);
  }

  /** The three ways a drag ends without an edge: a falsy end, the same node, or an existing edge. */
  lemma ConnectRejects(source: Option<string>, target: Option<string>, edges: seq<Edge>)
    ensures !Connects(source, target, edges) <==>
      !Truthy(source) || !Truthy(target) || source.value == target.value ||
      exists e :: e in edges && Joins(e, source.value, target.value)
  {
    if Truthy(source) && Truthy(target) {
      if exists e :: e in edges && Joins(e, source.value, target.value) {
        var e :| e in edges && Joins(e, source.value, target.value);
        var i :| 0 <= i < |edges| && edges[i] == e;
      }
    }
  }
}
