/**
 * Facts about the `distances` maps that the three shortest-path runs
 * of the graph hook share: how they are initialised, the ghost record of
 * a walk behind every finite distance, and the two arguments that make a
 * final distance the shortest one (a relaxation fixpoint for Bellman-Ford
 * and SPFA, the finished/unfinished split for Dijkstra).
 */
module Distances {
  import opened Js
  import opened Seqs
  import opened GraphTypes

  /**
   * `nodes.forEach(node => distances.set(node.id, node.number === start ? 0 : Infinity))`:
   * a later node with the same id overwrites an earlier one.
   */
  function InitDistances(nodes: seq<Node>, start: int): (d: map<string, Num>)
    ensures d.Keys == set n | n in nodes :: n.id
    ensures forall k :: k in d ==> d[k] == Fin(0) || d[k] == Inf
  {
    if nodes == [] then map[]
    else
      var last := nodes[|nodes| - 1];
      assert nodes == nodes[..|nodes| - 1] + [last];
      InitDistances(nodes[..|nodes| - 1], start)[last.id := if last.number == start then Fin(0) else Inf]
  }

  /** The ids of the nodes carrying the start number. */
  function StartIds(nodes: seq<Node>, start: int): set<string> {
    set n | n in nodes && n.number == start :: n.id
  }

  /** With unique ids, each node starts at 0 exactly when it carries the start number. */
  lemma {:induction false} InitDistancesValue(nodes: seq<Node>, start: int)
    requires NodeIdsUnique(nodes)
    ensures forall i :: 0 <= i < |nodes| ==>
      InitDistances(nodes, start)[nodes[i].id] == if nodes[i].number == start then Fin(0) else Inf
  {
    if nodes != [] {
      var init := nodes[..|nodes| - 1];
      assert NodeIdsUnique(init);
      InitDistancesValue(init, start);
      forall i | 0 <= i < |nodes| - 1 ensures nodes[i].id != nodes[|nodes| - 1].id && init[i] == nodes[i] { }
    }
  }

  /** With unique ids, the distances that start at 0 are exactly those of the start ids. */
  lemma InitSources(nodes: seq<Node>, start: int)
    requires NodeIdsUnique(nodes)
    ensures forall k :: k in InitDistances(nodes, start) ==>
      (InitDistances(nodes, start)[k] == Fin(0) <==> k in StartIds(nodes, start))
  {
    var d := InitDistances(nodes, start);
    InitDistancesValue(nodes, start);
    forall k | k in d ensures d[k] == Fin(0) <==> k in StartIds(nodes, start) {
      var n :| n in nodes && n.id == k;
      var i :| 0 <= i < |nodes| && nodes[i] == n;
      if k in StartIds(nodes, start) {
        var m :| m in nodes && m.number == start && m.id == k;
        var j :| 0 <= j < |nodes| && nodes[j] == m;
        assert i == j;
      }
    }
  }

  /** Every distance starts no higher than where it started: `distances` never increase. */
  predicate NoHigher(d: map<string, Num>, d0: map<string, Num>) {
    d.Keys == d0.Keys && forall k :: k in d0 ==> Le(d[k], d0[k])
  }

  /** Distances that are no higher than some others are no higher than themselves: none is `NaN`. */
  lemma NoHigherRefl(d: map<string, Num>, d0: map<string, Num>)
    requires NoHigher(d, d0)
    ensures NoHigher(d, d)
  {
    forall k | k in d ensures Le(d[k], d[k]) {
      assert Le(d[k], d0[k]);
    }
  }

  /** Every id in `src` is at a distance of at most 0. */
  predicate SourcesBounded(d: map<string, Num>, src: set<string>) {
    forall s :: s in src ==> Le(Get(d, s), Fin(0))
  }

  /** A walk together with the node it starts from. */
  datatype Walk = Walk(from: string, steps: seq<Edge>)

  /** Every finite distance is the weight of a recorded walk from a source. */
  ghost predicate Witnessed(edges: seq<Edge>, src: set<string>, d: map<string, Num>, wit: map<string, Walk>) {
    forall k :: k in d && d[k].Fin? ==>
      k in wit && wit[k].from in src && IsPath(edges, wit[k].steps, wit[k].from, k) &&
      Weight(wit[k].steps) == d[k].n
  }

  /** The empty walk from each source. */
  ghost function StartWalks(src: set<string>): map<string, Walk> {
    map k | k in src :: Walk(k, [])
  }

  /** At the start, the sources are at 0 by the empty walk and every other id is at `Infinity`. */
  lemma WitnessedInit(edges: seq<Edge>, d: map<string, Num>)
    requires forall k :: k in d ==> d[k] == Fin(0) || d[k] == Inf
    ensures Witnessed(edges, (set k | k in d && d[k] == Fin(0)), d, StartWalks(set k | k in d && d[k] == Fin(0)))
  {
  }

  /** One successful relaxation of `e` keeps every finite distance witnessed. */
  lemma WitnessedRelax(edges: seq<Edge>, src: set<string>, d: map<string, Num>, wit: map<string, Walk>, from: string, e: Edge)
    requires Witnessed(edges, src, d, wit)
    requires e in edges && e.source == from
    requires Less(Add(Get(d, from), e.weight), Get(d, e.target))
    ensures Witnessed(edges, src, d[e.target := Add(Get(d, from), e.weight)],
                      wit[e.target := Walk(wit[from].from, wit[from].steps + [e])])
  {
    PathExtend(edges, wit[from].steps, wit[from].from, e);
  }

  /** No edge can be relaxed: the distances are a fixpoint of relaxation. */
  predicate Triangle(edges: seq<Edge>, d: map<string, Num>) {
    forall e :: e in edges ==> Le(Get(d, e.target), Add(Get(d, e.source), e.weight))
  }

  /** At a fixpoint, a walk from `s` to `t` weighs at least the difference of their distances. */
  lemma {:induction false} FixpointLowerBound(edges: seq<Edge>, d: map<string, Num>, p: seq<Edge>, s: string, t: string)
    requires Triangle(edges, d) && IsPath(edges, p, s, t) && Get(d, s) != NaN
    ensures Le(Get(d, t), Add(Get(d, s), Weight(p)))
  {
    if p != [] {
      var q, e := p[..|p| - 1], p[|p| - 1];
      assert p == q + [e];
      var u := e.source;
      if q == [] {
        assert u == s;
      } else {
        assert IsPath(edges, q, s, u) by { assert q[|q| - 1] == p[|p| - 2]; }
      }
      FixpointLowerBound(edges, d, q, s, u);
      assert e in edges;
      LeAdd(Get(d, u), Add(Get(d, s), Weight(q)), e.weight);
      LeTrans(Get(d, t), Add(Get(d, u), e.weight), Add(Add(Get(d, s), Weight(q)), e.weight));
    }
  }

  /**
   * At a relaxation fixpoint with sources at most 0 and every finite distance
   * witnessed, every live node's distance is its shortest distance.
   */
  lemma FixpointIsShortest(edges: seq<Edge>, src: set<string>, d: map<string, Num>, wit: map<string, Walk>, t: string)
    requires Triangle(edges, d) && SourcesBounded(d, src) && Witnessed(edges, src, d, wit)
    requires t in d && d[t] != NaN
    ensures IsShortest(edges, src, t, d[t])
  {
    forall p, s | s in src && IsPath(edges, p, s, t) ensures Le(d[t], Fin(Weight(p))) {
      FixpointLowerBound(edges, d, p, s, t);
      LeAdd(Get(d, s), Fin(0), Weight(p));
      LeTrans(d[t], Add(Get(d, s), Weight(p)), Fin(Weight(p)));
    }
    if d[t].Fin? {
      assert t in wit && wit[t].from in src && IsPath(edges, wit[t].steps, wit[t].from, t);
    }
  }

  // ----- Dijkstra -----

  /**
   * The loop invariant of Dijkstra's algorithm, over the live ids `K` and the
   * unvisited ids `U`: the edges out of finished nodes are relaxed, and no
   * finished node is farther than an unfinished one.
   */
  ghost predicate DijkstraInv(edges: seq<Edge>, K: set<string>, U: set<string>, d: map<string, Num>) {
    (forall e :: e in edges && e.source in K && e.source !in U ==>
       Le(Get(d, e.target), Add(Get(d, e.source), e.weight))) &&
    (forall u, x :: u in K && u !in U && x in U ==> Le(Get(d, u), Get(d, x)))
  }

  /** The `k`-th vertex of the walk `p` from `s`. */
  function Vertex(p: seq<Edge>, s: string, k: nat): string
    requires k <= |p|
  {
    if k == 0 then s else p[k - 1].target
  }

  lemma {:induction false} WeightPrefix(p: seq<Edge>, k: nat)
    requires k <= |p| && forall i :: 0 <= i < |p| ==> p[i].weight >= 0
    ensures Weight(p[..k]) <= Weight(p)
  {
    if k < |p| {
      assert p[..|p| - 1][..k] == p[..k];
      WeightPrefix(p[..|p| - 1], k);
      assert Weight(p) == Weight(p[..|p| - 1]) + p[|p| - 1].weight;
      assert p[|p| - 1].weight >= 0;
    } else {
      assert p[..k] == p;
    }
  }

  /**
   * With non-negative weights, a source that is at most 0 and whose distance
   * is witnessed by a walk is exactly at 0: no walk weighs less than the
   * empty one.
   */
  lemma SourceAtZero(edges: seq<Edge>, src: set<string>, d: map<string, Num>, wit: map<string, Walk>, s: string)
    requires NonNegative(edges) && Witnessed(edges, src, d, wit) && s in d && Le(d[s], Fin(0))
    ensures d[s] == Fin(0)
  {
    var p := wit[s].steps;
    assert forall i :: 0 <= i < |p| ==> p[i] in edges;
    WeightPrefix(p, 0);
    assert p[..0] == [];
  }

  /** A walk whose vertices, except possibly the last, are all finished weighs at least the distance of its end. */
  lemma {:induction false} FinishedWalkBound(edges: seq<Edge>, K: set<string>, U: set<string>, d: map<string, Num>,
                                             src: set<string>, p: seq<Edge>, s: string, v: string)
    requires DijkstraInv(edges, K, U, d) && EdgesWithin(edges, K) && SourcesBounded(d, src)
    requires forall k :: k in K ==> k in d && d[k] != NaN
    requires s in src && IsPath(edges, p, s, v)
    requires forall k :: 0 <= k < |p| ==> Vertex(p, s, k) !in U
    ensures Le(Get(d, v), Fin(Weight(p)))
  {
    if p != [] {
      var q, e := p[..|p| - 1], p[|p| - 1];
      assert p == q + [e];
      var u := e.source;
      assert u == Vertex(p, s, |p| - 1);
      if q == [] {
        assert u == s;
      } else {
        assert IsPath(edges, q, s, u) by { assert q[|q| - 1] == p[|p| - 2]; }
      }
      forall k | 0 <= k < |q| ensures Vertex(q, s, k) !in U {
        assert Vertex(q, s, k) == Vertex(p, s, k);
      }
      FinishedWalkBound(edges, K, U, d, src, q, s, u);
      assert e in edges;
      LeAdd(Get(d, u), Fin(Weight(q)), e.weight);
      LeTrans(Get(d, v), Add(Get(d, u), e.weight), Fin(Weight(q) + e.weight));
    }
  }

  /**
   * The heart of Dijkstra's correctness: with non-negative weights, when the
   * node `end` is the nearest unvisited one, no walk from a source to `end`
   * weighs less than its distance.
   */
  lemma DijkstraBound(edges: seq<Edge>, K: set<string>, U: set<string>, d: map<string, Num>,
                      src: set<string>, p: seq<Edge>, s: string, end: string)
    requires DijkstraInv(edges, K, U, d) && EdgesWithin(edges, K) && NonNegative(edges) && SourcesBounded(d, src)
    requires forall k :: k in K ==> k in d && d[k] != NaN
    requires U <= K && end in U && forall x :: x in U ==> Le(Get(d, end), Get(d, x))
    requires s in src && IsPath(edges, p, s, end)
    ensures Le(Get(d, end), Fin(Weight(p)))
  {
    var k := 0;
    while Vertex(p, s, k) !in U
      invariant 0 <= k <= |p|
      invariant forall j :: 0 <= j < k ==> Vertex(p, s, j) !in U
      decreases |p| - k
    {
      k := k + 1;
    }
    var v := Vertex(p, s, k);
    if k == 0 {
      assert IsPath(edges, p[..0], s, s);
    } else {
      PathPrefix(edges, p, s, end, k);
    }
    forall j | 0 <= j < k ensures Vertex(p[..k], s, j) !in U {
      assert Vertex(p[..k], s, j) == Vertex(p, s, j);
    }
    FinishedWalkBound(edges, K, U, d, src, p[..k], s, v);
    WeightPrefix(p, k);
    LeTrans(Get(d, end), Get(d, v), Fin(Weight(p[..k])));
  }

  /** When Dijkstra selects `end`, its distance is the shortest distance. */
  lemma DijkstraIsShortest(edges: seq<Edge>, K: set<string>, U: set<string>, d: map<string, Num>,
                           src: set<string>, wit: map<string, Walk>, end: string)
    requires DijkstraInv(edges, K, U, d) && EdgesWithin(edges, K) && NonNegative(edges)
    requires SourcesBounded(d, src) && Witnessed(edges, src, d, wit)
    requires forall k :: k in K ==> k in d && d[k] != NaN
    requires U <= K && end in U && forall x :: x in U ==> Le(Get(d, end), Get(d, x))
    ensures IsShortest(edges, src, end, d[end])
  {
    forall p, s | s in src && IsPath(edges, p, s, end) ensures Le(d[end], Fin(Weight(p))) {
      DijkstraBound(edges, K, U, d, src, p, s, end);
    }
  }
}
