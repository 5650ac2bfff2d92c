/**
 * The graph entities (nodes, directed weighted edges, the drag gesture,
 * the start/end selection) and the lookups the operations share.
 * Paths, their weights and "shortest distance" are defined here too, as
 * the reference against which the path-finding algorithms are proved.
 */
module GraphTypes {
  import opened Js
  import opened Seqs

  /** A node: opaque id, canvas position, and its user-facing number. */
  datatype Node = Node(id: string, x: real, y: real, number: int)

  /** A directed edge between two node ids, with an integer weight. */
  datatype Edge = Edge(id: string, source: string, target: string, weight: int)

  datatype Graph = Graph(nodes: seq<Node>, edges: seq<Edge>)

  datatype Point = Point(x: real, y: real)

  /** An edge-creation gesture: the node it started from and the rubber-band end point. */
  datatype DragState = DragState(sourceId: Option<string>, tempTarget: Option<Point>)

  const Idle := DragState(None, None)

  /** The selected start and end nodes, by their numbers. */
  datatype GraphConfig = GraphConfig(startNode: Option<int>, endNode: Option<int>)

  function NodeIds(nodes: seq<Node>): (r: seq<string>)
    ensures |r| == |nodes|
    ensures forall i :: 0 <= i < |nodes| ==> r[i] == nodes[i].id
  {
    seq(|nodes|, i requires 0 <= i < |nodes| => nodes[i].id)
  }

  lemma NodeIdsNoDup(nodes: seq<Node>)
    requires NodeIdsUnique(nodes)
    ensures NoDup(NodeIds(nodes))
  {
    forall i, j | 0 <= i < j < |nodes| ensures NodeIds(nodes)[i] != NodeIds(nodes)[j] {
      assert OtherId(nodes[i], nodes[j]);
    }
  }

  /** The ids of the nodes, as a set. */
  function NodeIdSet(nodes: seq<Node>): set<string> {
    set n | n in nodes :: n.id
  }

  /** `nodes.find(n => n.id === id)`. */
  function FindNode(nodes: seq<Node>, id: string): Option<Node> {
    Find(nodes, (n: Node) => n.id == id)
  }

  /** `nodes.find(n => n.number === num)`. */
  function FindNodeByNumber(nodes: seq<Node>, num: int): Option<Node> {
    Find(nodes, (n: Node) => n.number == num)
  }

  /** `edges.find(e => e.source === from && e.target === to)`. */
  function FindEdge(edges: seq<Edge>, from: string, to: string): Option<Edge> {
    Find(edges, (e: Edge) => e.source == from && e.target == to)
  }

  /** `edges.filter(edge => edge.source === id)`. */
  function OutEdges(edges: seq<Edge>, id: string): seq<Edge> {
    Filter(edges, (e: Edge) => e.source == id)
  }

  lemma OutEdgesAre(edges: seq<Edge>, id: string)
    ensures forall e :: e in OutEdges(edges, id) <==> e in edges && e.source == id
  {
  }

  predicate OtherId(a: Node, b: Node) {
    a.id != b.id
  }

  predicate OtherNumber(a: Node, b: Node) {
    a.number != b.number
  }

  predicate OtherEdgeId(a: Edge, b: Edge) {
    a.id != b.id
  }

  predicate NodeIdsUnique(nodes: seq<Node>) {
    Pairwise(nodes, OtherId)
  }

  predicate NumbersUnique(nodes: seq<Node>) {
    Pairwise(nodes, OtherNumber)
  }

  predicate EdgeIdsUnique(edges: seq<Edge>) {
    Pairwise(edges, OtherEdgeId)
  }

  /** No edge joins a node to itself. */
  predicate NoSelfLoops(edges: seq<Edge>) {
    forall e :: e in edges ==> e.source != e.target
  }

  /** Two edges join different pairs of nodes, in either direction. */
  predicate DistinctPairs(a: Edge, b: Edge) {
    !(a.source == b.source && a.target == b.target) && !(a.source == b.target && a.target == b.source)
  }

  /** At most one edge between an unordered pair of nodes. */
  predicate OneEdgePerPair(edges: seq<Edge>) {
    Pairwise(edges, DistinctPairs)
  }

  /** Every edge joins two live nodes. */
  predicate EdgesWithin(edges: seq<Edge>, ids: set<string>) {
    forall e :: e in edges ==> e.source in ids && e.target in ids
  }

  predicate NonNegative(edges: seq<Edge>) {
    forall e :: e in edges ==> e.weight >= 0
  }

  // ----- Paths and shortest distances -----

  /** `p` is a walk along `edges` from `s` to `t` (vertices may repeat). */
  ghost predicate IsPath(edges: seq<Edge>, p: seq<Edge>, s: string, t: string) {
    (forall i :: 0 <= i < |p| ==> p[i] in edges) &&
    (if p == [] then s == t
     else p[0].source == s && p[|p| - 1].target == t &&
          forall i :: 0 <= i < |p| - 1 ==> p[i].target == p[i + 1].source)
  }

  function Weight(p: seq<Edge>): int {
    if p == [] then 0 else Weight(p[..|p| - 1]) + p[|p| - 1].weight
  }

  lemma PathExtend(edges: seq<Edge>, p: seq<Edge>, s: string, e: Edge)
    requires IsPath(edges, p, s, e.source) && e in edges
    ensures IsPath(edges, p + [e], s, e.target)
    ensures Weight(p + [e]) == Weight(p) + e.weight
  {
    assert (p + [e])[..|p|] == p;
  }

  lemma PathPrefix(edges: seq<Edge>, p: seq<Edge>, s: string, t: string, k: nat)
    requires IsPath(edges, p, s, t) && 0 < k <= |p|
    ensures IsPath(edges, p[..k], s, p[k - 1].target)
  {
  }

  /** Some walk from `s` reaches `t`. */
  ghost predicate Reachable(edges: seq<Edge>, s: string, t: string) {
    exists p :: IsPath(edges, p, s, t)
  }

  /**
   * `d` is the shortest distance to `t` from the sources `src`: no walk from
   * a source to `t` weighs less, and when `d` is finite some walk weighs exactly
   * `d`.  (`d == Inf` therefore says that no source reaches `t`.)
   */
  ghost predicate IsShortest(edges: seq<Edge>, src: set<string>, t: string, d: Num) {
    (forall p, s :: s in src && IsPath(edges, p, s, t) ==> Le(d, Fin(Weight(p)))) &&
    (d.Fin? ==> exists p, s :: s in src && IsPath(edges, p, s, t) && Weight(p) == d.n) &&
    d != NaN
  }

  /** There is only one shortest distance, so algorithms that compute it agree. */
  lemma ShortestUnique(edges: seq<Edge>, src: set<string>, t: string, a: Num, b: Num)
    requires IsShortest(edges, src, t, a) && IsShortest(edges, src, t, b)
    ensures a == b
  {
    if a.Fin? {
      var p, s :| s in src && IsPath(edges, p, s, t) && Weight(p) == a.n;
      assert Le(b, a);
    }
    if b.Fin? {
      var p, s :| s in src && IsPath(edges, p, s, t) && Weight(p) == b.n;
      assert Le(a, b);
    }
  }
}
