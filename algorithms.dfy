/**
 * The batch path-finding library: path reconstruction along a `previous`
 * map, breadth- and depth-first search over `(id, parent)` work lists, a
 * Dijkstra with lazy deletion of stale queue entries, and A* with the
 * heuristic taken as a parameter.  Each returns the visited nodes and
 * edges and the reconstructed path.
 */
module Algorithms {
  import opened Js
  import opened Seqs
  import opened GraphTypes
  import opened Distances
  import opened PriorityQueues
  import Runs

  // ----- reconstructPath -----

  /** `previous.get(id)` is a truthy id, so the walk back goes on. */
  predicate HasPrev(previous: map<string, string>, id: string) {
    id in previous && previous[id] != ""
  }

  /** The edge highlighted when the walk passes `c`: the first edge from its predecessor into it, if any. */
  function EdgeInto(previous: map<string, string>, edges: seq<Edge>, c: string): set<string> {
    if HasPrev(previous, c) then
      match FindEdge(edges, previous[c], c)
      case Some(e) => {e.id}
      case None => {}
    else {}
  }

  /** The edges highlighted along a walk. */
  function EdgesAlong(previous: map<string, string>, edges: seq<Edge>, chain: seq<string>): set<string> {
    if chain == [] then {} else EdgesAlong(previous, edges, chain[..|chain| - 1]) + EdgeInto(previous, edges, chain[|chain| - 1])
  }

  /** `chain` is the walk back from `end` along `previous`, without repeats and not yet at `start`. */
  predicate BackWalk(previous: map<string, string>, start: string, end: string, chain: seq<string>) {
    (chain != [] ==> chain[0] == end) &&
    (forall i :: 0 <= i < |chain| ==> chain[i] != start) &&
    (forall i :: 0 <= i < |chain| - 1 ==> HasPrev(previous, chain[i]) && chain[i + 1] == previous[chain[i]]) &&
    NoDup(chain)
  }

  /**
   * How the walk ended: it never started because `end` is `start`; its last
   * id has no predecessor or has `start` as predecessor; or (`diverged`) it
   * came back to an id it passed, where the source loops for ever.
   */
  predicate WalkEnds(previous: map<string, string>, start: string, end: string, chain: seq<string>, diverged: bool) {
    if chain == [] then end == start && !diverged
    else
      var last := chain[|chain| - 1];
      (!diverged ==> !HasPrev(previous, last) || previous[last] == start) &&
      (diverged ==> HasPrev(previous, last) && previous[last] != start && previous[last] in chain)
  }

  /** The result of `reconstructPath`, given the walk it took. */
  predicate Reconstructed(previous: map<string, string>, edges: seq<Edge>, start: string, end: string,
                          chain: seq<string>, diverged: bool, pathNodes: set<string>, pathEdges: set<string>) {
    BackWalk(previous, start, end, chain) && WalkEnds(previous, start, end, chain, diverged) &&
    pathNodes == Elems(chain) + {start} && pathEdges == EdgesAlong(previous, edges, chain)
  }

  /**
   * `reconstructPath(previous, edges, startId, endId)`: walk back from the
   * end, adding each id and the edge from its predecessor, until the start
   * or an id without predecessor; then add the start.  A walk that comes
   * back to an id it passed never ends in the source; here it stops there
   * and reports `diverged`.
   */
  method ReconstructPath(previous: map<string, string>, edges: seq<Edge>, startId: string, endId: string)
    returns (pathNodes: set<string>, pathEdges: set<string>, diverged: bool, ghost chain: seq<string>)
    ensures Reconstructed(previous, edges, startId, endId, chain, diverged, pathNodes, pathEdges)
    ensures startId in pathNodes && endId in pathNodes
    ensures !HasPrev(previous, endId) ==> pathNodes == {endId, startId} && pathEdges == {} && !diverged
  {
    pathNodes, pathEdges, diverged, chain := {}, {}, false, [];
    var cur := endId;
    while cur != startId
      invariant BackWalk(previous, startId, endId, chain)
      invariant chain == [] ==> cur == endId
      invariant chain != [] ==> HasPrev(previous, chain[|chain| - 1]) && cur == previous[chain[|chain| - 1]]
      invariant pathNodes == Elems(chain) && pathEdges == EdgesAlong(previous, edges, chain)
      decreases previous.Keys - pathNodes
    {
      if cur in pathNodes {
        diverged := true;
        break;
      }
      WalkOn(previous, edges, startId, endId, chain, cur);
      pathNodes := pathNodes + {cur};
      chain := chain + [cur];
      if !HasPrev(previous, cur) {
        break;
      }
      pathEdges := pathEdges + EdgeInto(previous, edges, cur);
      cur := previous[cur];
    }
    pathNodes := pathNodes + {startId};
    ReconstructedHasEnds(previous, edges, startId, endId, chain, diverged, pathNodes, pathEdges);
    if !HasPrev(previous, endId) {
      ReconstructedWithoutPredecessor(previous, edges, startId, endId, chain, diverged, pathNodes, pathEdges);
    }
  }

  /** Passing one more id that is not the start and was not passed before keeps the walk a `BackWalk`. */
  lemma WalkOn(previous: map<string, string>, edges: seq<Edge>, start: string, end: string, chain: seq<string>, cur: string)
    requires BackWalk(previous, start, end, chain) && cur != start && cur !in Elems(chain)
    requires chain == [] ==> cur == end
    requires chain != [] ==> HasPrev(previous, chain[|chain| - 1]) && cur == previous[chain[|chain| - 1]]
    ensures BackWalk(previous, start, end, chain + [cur]) && (chain + [cur])[|chain|] == cur
    ensures Elems(chain + [cur]) == Elems(chain) + {cur}
    ensures EdgesAlong(previous, edges, chain + [cur]) == EdgesAlong(previous, edges, chain) + EdgeInto(previous, edges, cur)
  {
    var c := chain + [cur];
    assert c[..|chain|] == chain;
    forall i, j | 0 <= i < j < |c| ensures c[i] != c[j] {
      if j == |chain| {
        assert c[i] in Elems(chain);
      }
    }
  }

  /** Both ends are always on the reconstructed path. */
  lemma ReconstructedHasEnds(previous: map<string, string>, edges: seq<Edge>, start: string, end: string,
                             chain: seq<string>, diverged: bool, pathNodes: set<string>, pathEdges: set<string>)
    requires Reconstructed(previous, edges, start, end, chain, diverged, pathNodes, pathEdges)
    ensures start in pathNodes && end in pathNodes
  {
    if chain != [] {
      assert chain[0] in Elems(chain);
    }
  }

  /** When the end has no predecessor, the path is just the end and the start, with no edge. */
  lemma ReconstructedWithoutPredecessor(previous: map<string, string>, edges: seq<Edge>, start: string, end: string,
                                        chain: seq<string>, diverged: bool, pathNodes: set<string>, pathEdges: set<string>)
    requires Reconstructed(previous, edges, start, end, chain, diverged, pathNodes, pathEdges)
    requires !HasPrev(previous, end)
    ensures pathNodes == {end, start} && pathEdges == {} && !diverged
  {
    if end != start {
      assert chain == [end];
      assert chain[..0] == [];
      assert EdgesAlong(previous, edges, chain) == EdgeInto(previous, edges, end);
      assert Elems(chain) == {end};
    }
  }

  /** Each highlighted edge goes from `previous[c]` to `c` for some `c` on the walk. */
  lemma {:induction false} EdgesAlongSound(previous: map<string, string>, edges: seq<Edge>, chain: seq<string>, x: string)
    requires x in EdgesAlong(previous, edges, chain)
    ensures exists c :: c in chain && HasPrev(previous, c) && FindEdge(edges, previous[c], c).Some? &&
                        FindEdge(edges, previous[c], c).value.id == x &&
                        FindEdge(edges, previous[c], c).value.source == previous[c] &&
                        FindEdge(edges, previous[c], c).value.target == c
  {
    var init, c := chain[..|chain| - 1], chain[|chain| - 1];
    if x in EdgeInto(previous, edges, c) {
      assert c in chain;
    } else {
      EdgesAlongSound(previous, edges, init, x);
      var b :| b in init && HasPrev(previous, b) && FindEdge(edges, previous[b], b).Some? &&
               FindEdge(edges, previous[b], b).value.id == x;
      assert b in chain;
    }
  }

  // ----- bfs and dfs -----

  /** An entry of the work list: an id and the id it was reached from (`null` for the start). */
  type Item = (string, Option<string>)

  /** The ids a search can ever visit: the start and the targets of edges. */
  function Targets(edges: seq<Edge>, start: string): set<string> {
    (set e | e in edges :: e.target) + {start}
  }

  /** Every visited id after the first was reached by an edge from an id visited before it. */
  predicate Grown(edges: seq<Edge>, order: seq<string>) {
    forall i :: 0 < i < |order| ==> exists j :: 0 <= j < i && FindEdge(edges, order[j], order[i]).Some?
  }

  /** No edge leads out of the ids of `order`. */
  predicate ClosedUnder(edges: seq<Edge>, order: seq<string>) {
    forall e :: e in edges && e.source in order ==> e.target in order
  }

  /** `order` visited each id once, the start first, and each later id from an earlier one. */
  predicate Visits(edges: seq<Edge>, start: string, order: seq<string>) {
    NoDup(order) && Elems(order) <= Targets(edges, start) &&
    (order != [] ==> order[0] == start) && Grown(edges, order)
  }

  /**
   * Every pending entry names an id a search can visit, and, once something
   * is visited, a visited parent joined to it by an edge; before that the
   * work list is the start entry alone.
   */
  predicate PendingOk(edges: seq<Edge>, start: string, order: seq<string>, work: seq<Item>) {
    (order == [] ==> work == [(start, None)]) &&
    (forall k :: 0 <= k < |work| ==> work[k].0 in Targets(edges, start)) &&
    (order != [] ==> forall k :: 0 <= k < |work| ==>
       work[k].1.Some? && work[k].1.value in order && FindEdge(edges, work[k].1.value, work[k].0).Some?)
  }

  /** Every `previous` entry names a visited parent joined to the id by an edge. */
  predicate PrevOk(edges: seq<Edge>, order: seq<string>, previous: map<string, string>) {
    forall k :: k in previous ==> previous[k] in order && FindEdge(edges, previous[k], k).Some?
  }

  /** Every visited edge joins two visited ids. */
  ghost predicate EdgesOk(edges: seq<Edge>, order: seq<string>, visitedEdges: set<string>) {
    forall x :: x in visitedEdges ==> exists e :: e in edges && e.id == x && e.source in order && e.target in order
  }

  /** The state of a search between two turns of its main loop. */
  ghost predicate Searching(edges: seq<Edge>, start: string, order: seq<string>, work: seq<Item>,
                            previous: map<string, string>, visitedEdges: set<string>) {
    Visits(edges, start, order) && PendingOk(edges, start, order, work) &&
    PrevOk(edges, order, previous) && EdgesOk(edges, order, visitedEdges)
  }

  /** Every edge out of a visited id leads to a visited id or to an id pending in the work list. */
  ghost predicate Frontier(edges: seq<Edge>, order: seq<string>, work: seq<Item>) {
    forall e :: e in edges && e.source in order ==>
      e.target in order || exists k :: 0 <= k < |work| && work[k].0 == e.target
  }

  /** The work list without its entry at `p`: `shift()` takes `p == 0`, `pop()` the last one. */
  function Without(work: seq<Item>, p: int): (r: seq<Item>)
    requires 0 <= p < |work|
    ensures |r| == |work| - 1
    ensures forall k :: 0 <= k < p ==> r[k] == work[k]
    ensures forall k :: p <= k < |r| ==> r[k] == work[k + 1]
  {
    work[..p] + work[p + 1..]
  }

  /** Popping an id already visited keeps the search state. */
  lemma SkipKeeps(edges: seq<Edge>, start: string, order: seq<string>, work0: seq<Item>, p: int,
                  previous: map<string, string>, visitedEdges: set<string>)
    requires Searching(edges, start, order, work0, previous, visitedEdges) && Frontier(edges, order, work0)
    requires 0 <= p < |work0| && work0[p].0 in order
    ensures Searching(edges, start, order, Without(work0, p), previous, visitedEdges)
    ensures Frontier(edges, order, Without(work0, p))
  {
    var w := Without(work0, p);
    forall e | e in edges && e.source in order && e.target !in order
      ensures exists k :: 0 <= k < |w| && w[k].0 == e.target
    {
      var k :| 0 <= k < |work0| && work0[k].0 == e.target;
      if k < p {
        assert w[k] == work0[k];
      } else {
        assert k != p;
        assert w[k - 1] == work0[k];
      }
    }
    forall k | 0 <= k < |w| ensures w[k] in work0 {
      if k < p {
        assert w[k] == work0[k];
      } else {
        assert w[k] == work0[k + 1];
      }
    }
  }

  /**
   * Appending an unvisited id keeps `Visits` when it is the start of an
   * empty order, or joined by an edge from an id already visited.
   */
  lemma VisitNext(edges: seq<Edge>, start: string, order: seq<string>, cur: string, j: int)
    requires Visits(edges, start, order) && cur !in order && cur in Targets(edges, start)
    requires order == [] ==> cur == start
    requires order != [] ==> 0 <= j < |order| && FindEdge(edges, order[j], cur).Some?
    ensures Visits(edges, start, order + [cur])
  {
    var o := order + [cur];
    ElemsAppend(order, cur);
    forall i, k | 0 <= i < k < |o| ensures o[i] != o[k] {
      if k == |order| {
        assert o[i] in order;
      }
    }
    forall i | 0 < i < |o| ensures exists k :: 0 <= k < i && FindEdge(edges, o[k], o[i]).Some? {
      if i < |order| {
        var k :| 0 <= k < i && FindEdge(edges, order[k], order[i]).Some?;
        assert o[k] == order[k];
      } else {
        assert o[j] == order[j];
      }
    }
  }

  /** Visiting the popped id keeps `Visits`: it is new, and it is the start or was pushed by a visited parent. */
  lemma VisitGrows(edges: seq<Edge>, start: string, order: seq<string>, work0: seq<Item>, p: int)
    requires Visits(edges, start, order) && PendingOk(edges, start, order, work0)
    requires 0 <= p < |work0| && work0[p].0 !in order
    ensures Visits(edges, start, order + [work0[p].0])
  {
    if order != [] {
      var parent := work0[p].1.value;
      var j :| 0 <= j < |order| && order[j] == parent;
      VisitNext(edges, start, order, work0[p].0, j);
    } else {
      VisitNext(edges, start, order, work0[p].0, 0);
    }
  }

  /** The entries pushed after visiting `cur` name visited parents joined to them, and so do the older ones. */
  lemma PendingGrows(edges: seq<Edge>, start: string, order: seq<string>, work0: seq<Item>, p: int,
                     es: seq<Edge>, work: seq<Item>)
    requires PendingOk(edges, start, order, work0) && 0 <= p < |work0| && LeavesFrom(edges, work0[p].0, es)
    requires work == Without(work0, p) + Entries(Unvisited(es, order + [work0[p].0]), work0[p].0)
    ensures PendingOk(edges, start, order + [work0[p].0], work)
  {
    var cur := work0[p].0;
    var w1 := Without(work0, p);
    var u := Unvisited(es, order + [cur]);
    forall k | 0 <= k < |work| ensures work[k].0 in Targets(edges, start) &&
      work[k].1.Some? && work[k].1.value in order + [cur] && FindEdge(edges, work[k].1.value, work[k].0).Some?
    {
      if k < |w1| {
        assert work[k] == w1[k];
        assert |work0| > 1;
        if k < p {
          assert w1[k] == work0[k];
        } else {
          assert w1[k] == work0[k + 1];
        }
      } else {
        var e := u[k - |w1|];
        assert e in u;
        assert work[k] == (e.target, Some(cur));
        Runs.FindEdgeIn(edges, e);
      }
    }
  }

  /** The predecessors `Expand` records after visiting `cur` are `cur`, joined to them by an edge. */
  lemma PrevGrows(edges: seq<Edge>, order: seq<string>, previous0: map<string, string>, previous: map<string, string>,
                  cur: string, es: seq<Edge>)
    requires PrevOk(edges, order, previous0) && LeavesFrom(edges, cur, es)
    requires forall k :: k in previous ==>
               (k in previous0 && previous[k] == previous0[k]) ||
               (previous[k] == cur && exists j :: 0 <= j < |es| && es[j].target == k)
    ensures PrevOk(edges, order + [cur], previous)
  {
    var out := es;
    forall k | k in previous ensures previous[k] in order + [cur] && FindEdge(edges, previous[k], k).Some? {
      if !(k in previous0 && previous[k] == previous0[k]) {
        var j :| 0 <= j < |out| && out[j].target == k;
        assert out[j] in out;
        Runs.FindEdgeIn(edges, out[j]);
      }
    }
  }

  /** The edge from the parent to the newly visited id joins two visited ids. */
  lemma EdgesGrow(edges: seq<Edge>, order: seq<string>, visitedEdges: set<string>, parent: Option<string>, cur: string)
    requires EdgesOk(edges, order, visitedEdges)
    requires parent.Some? ==> parent.value in order
    ensures EdgesOk(edges, order + [cur], visitedEdges + FromParent(edges, parent, cur))
  {
    if Truthy(parent) && FindEdge(edges, parent.value, cur).Some? {
      var e := FindEdge(edges, parent.value, cur).value;
      assert e.source == parent.value && e.target == cur;
    }
  }

  /** `if (parentId) { const edge = edges.find(...); if (edge) visitedEdges.add(edge.id); }` */
  function FromParent(edges: seq<Edge>, parent: Option<string>, cur: string): set<string> {
    if Truthy(parent) then
      match FindEdge(edges, parent.value, cur)
      case Some(e) => {e.id}
      case None => {}
    else {}
  }

  /** After a visit and its pushes, every edge out of a visited id still leads to a visited or a pending id. */
  lemma FrontierGrows(edges: seq<Edge>, order: seq<string>, work0: seq<Item>, p: int, es: seq<Edge>, work: seq<Item>)
    requires Frontier(edges, order, work0) && 0 <= p < |work0| && LeavesFrom(edges, work0[p].0, es)
    requires work == Without(work0, p) + Entries(Unvisited(es, order + [work0[p].0]), work0[p].0)
    ensures Frontier(edges, order + [work0[p].0], work)
  {
    var cur := work0[p].0;
    var o := order + [cur];
    var w1 := Without(work0, p);
    var u := Unvisited(es, o);
    forall e | e in edges && e.source in o && e.target !in o
      ensures exists k :: 0 <= k < |work| && work[k].0 == e.target
    {
      if e.source == cur {
        assert e in u;
        var i :| 0 <= i < |u| && u[i] == e;
        assert work[|w1| + i].0 == e.target;
      } else {
        var k :| 0 <= k < |work0| && work0[k].0 == e.target;
        if k < p {
          assert work[k] == work0[k];
        } else {
          assert k != p;
          assert work[k - 1] == work0[k];
        }
      }
    }
  }

  /** `es` holds exactly the edges out of `cur`, in some order. */
  ghost predicate LeavesFrom(edges: seq<Edge>, cur: string, es: seq<Edge>) {
    forall e :: e in es <==> e in edges && e.source == cur
  }

  lemma ReverseLeaves(edges: seq<Edge>, cur: string, es: seq<Edge>)
    requires LeavesFrom(edges, cur, es)
    ensures LeavesFrom(edges, cur, Reverse(es))
  {
    forall e | e in Reverse(es) ensures e in es {
      var i :| 0 <= i < |es| && Reverse(es)[i] == e;
      assert es[|es| - 1 - i] == e;
    }
    forall e | e in es ensures e in Reverse(es) {
      var i :| 0 <= i < |es| && es[i] == e;
      assert Reverse(es)[|es| - 1 - i] == e;
    }
  }

  /** The outgoing edges whose targets are not visited yet. */
  function Unvisited(es: seq<Edge>, order: seq<string>): seq<Edge> {
    Filter(es, (e: Edge) => e.target !in order)
  }

  /** The entries pushed for those edges: each target, with `cur` as its parent. */
  function Entries(es: seq<Edge>, cur: string): (r: seq<Item>)
    ensures |r| == |es|
    ensures forall i :: 0 <= i < |es| ==> r[i] == (es[i].target, Some(cur))
  {
    seq(|es|, i requires 0 <= i < |es| => (es[i].target, Some(cur)))
  }

  /** One more edge looked at adds its entry when its target is not visited. */
  lemma UnvisitedStep(es: seq<Edge>, i: int, order: seq<string>, cur: string)
    requires 0 <= i < |es|
    ensures Entries(Unvisited(es[..i + 1], order), cur) ==
      Entries(Unvisited(es[..i], order), cur) + (if es[i].target in order then [] else [(es[i].target, Some(cur))])
  {
    assert es[..i + 1] == es[..i] + [es[i]];
    FilterConcat(es[..i], [es[i]], (e: Edge) => e.target !in order);
    var u := Unvisited(es[..i], order);
    if es[i].target !in order {
      assert Unvisited(es[..i + 1], order) == u + [es[i]];
      assert Entries(u + [es[i]], cur) == Entries(u, cur) + [(es[i].target, Some(cur))];
    } else {
      assert Unvisited(es[..i + 1], order) == u;
    }
  }

  lemma EntriesReverse(es: seq<Edge>, cur: string)
    ensures Entries(Reverse(es), cur) == Reverse(Entries(es, cur))
  {
    var l, r := Entries(Reverse(es), cur), Reverse(Entries(es, cur));
    assert |l| == |r|;
    forall i | 0 <= i < |l| ensures l[i] == r[i] {
      assert l[i] == (Reverse(es)[i].target, Some(cur)) == (es[|es| - 1 - i].target, Some(cur));
    }
  }

  /**
   * `edges.filter(edge => edge.source === currentId).forEach(...)` with the
   * search's body: for each edge whose target is not visited, the target
   * gets `cur` as predecessor and is pushed with `cur` as its parent.  The
   * visited ids do not change inside the loop, so the pushes are exactly
   * the entries of the unvisited edges, in the order given.
   */
  method Expand(es: seq<Edge>, cur: string, order: seq<string>, work0: seq<Item>, previous0: map<string, string>)
    returns (work: seq<Item>, previous: map<string, string>)
    ensures work == work0 + Entries(Unvisited(es, order), cur)
    ensures forall k :: k in previous ==> (k in previous0 && previous[k] == previous0[k]) ||
                                          (previous[k] == cur && exists j :: 0 <= j < |es| && es[j].target == k)
    ensures forall j :: 0 <= j < |es| && es[j].target !in order ==> es[j].target in previous && previous[es[j].target] == cur
  {
    work, previous := work0, previous0;
    var i := 0;
    while i < |es|
      invariant 0 <= i <= |es|
      invariant work == work0 + Entries(Unvisited(es[..i], order), cur)
      invariant forall k :: k in previous ==> (k in previous0 && previous[k] == previous0[k]) ||
                                              (previous[k] == cur && exists j :: 0 <= j < i && es[j].target == k)
      invariant forall j :: 0 <= j < i && es[j].target !in order ==> es[j].target in previous && previous[es[j].target] == cur
    {
      var e := es[i];
      UnvisitedStep(es, i, order, cur);
      if e.target !in order {
        previous := previous[e.target := cur];
        work := work + [(e.target, Some(cur))];
      }
      i := i + 1;
    }
    assert es[..|es|] == es;
  }

  /** All of a visit's effects on the search state at once. */
  lemma VisitKeeps(edges: seq<Edge>, start: string, order: seq<string>, work0: seq<Item>, p: int,
                   previous0: map<string, string>, visitedEdges: set<string>, es: seq<Edge>,
                   work: seq<Item>, previous: map<string, string>)
    requires Searching(edges, start, order, work0, previous0, visitedEdges) && Frontier(edges, order, work0)
    requires 0 <= p < |work0| && work0[p].0 !in order && LeavesFrom(edges, work0[p].0, es)
    requires work == Without(work0, p) + Entries(Unvisited(es, order + [work0[p].0]), work0[p].0)
    requires forall k :: k in previous ==>
               (k in previous0 && previous[k] == previous0[k]) ||
               (previous[k] == work0[p].0 && exists j :: 0 <= j < |es| && es[j].target == k)
    ensures Searching(edges, start, order + [work0[p].0], work, previous,
                      visitedEdges + FromParent(edges, work0[p].1, work0[p].0))
    ensures Frontier(edges, order + [work0[p].0], work)
  {
    VisitGrows(edges, start, order, work0, p);
    PendingGrows(edges, start, order, work0, p, es, work);
    PrevGrows(edges, order, previous0, previous, work0[p].0, es);
    EdgesGrow(edges, order, visitedEdges, work0[p].1, work0[p].0);
    FrontierGrows(edges, order, work0, p, es, work);
  }

  /** Visiting the end stops the search with its state intact but for the end's own edges. */
  lemma VisitEnds(edges: seq<Edge>, start: string, order: seq<string>, work0: seq<Item>, p: int,
                  previous: map<string, string>, visitedEdges: set<string>)
    requires Searching(edges, start, order, work0, previous, visitedEdges)
    requires 0 <= p < |work0| && work0[p].0 !in order
    ensures Visits(edges, start, order + [work0[p].0]) && PrevOk(edges, order + [work0[p].0], previous)
    ensures EdgesOk(edges, order + [work0[p].0], visitedEdges + FromParent(edges, work0[p].1, work0[p].0))
  {
    VisitGrows(edges, start, order, work0, p);
    EdgesGrow(edges, order, visitedEdges, work0[p].1, work0[p].0);
  }

  /**
   * What `bfs` and `dfs` deliver: each id visited once, the start first,
   * every later one reached by an edge from an earlier one; the search
   * stops right after visiting the end, and when it never does, no edge
   * leads out of the visited ids.  Predecessors and visited edges join
   * visited ids.
   */
  ghost predicate Searched(edges: seq<Edge>, start: string, end: string, order: seq<string>,
                           previous: map<string, string>, visitedEdges: set<string>) {
    Visits(edges, start, order) && order != [] &&
    PrevOk(edges, order, previous) && EdgesOk(edges, order, visitedEdges) &&
    (end in order ==> order[|order| - 1] == end) &&
    (end !in order ==> ClosedUnder(edges, order))
  }

  /** Every visited id is reachable from the start, through the ids visited before it. */
  lemma {:induction false} VisitedReachable(edges: seq<Edge>, start: string, order: seq<string>, i: int)
    requires Visits(edges, start, order) && 0 <= i < |order|
    ensures Reachable(edges, start, order[i])
    decreases i
  {
    if i == 0 {
      assert IsPath(edges, [], start, order[0]);
    } else {
      var j :| 0 <= j < i && FindEdge(edges, order[j], order[i]).Some?;
      var e := FindEdge(edges, order[j], order[i]).value;
      VisitedReachable(edges, start, order, j);
      var p :| IsPath(edges, p, start, order[j]);
      PathExtend(edges, p, start, e);
    }
  }

  /** When no edge leads out of the visited ids, every walk from the start stays among them. */
  lemma {:induction false} ClosedKeepsWalks(edges: seq<Edge>, start: string, order: seq<string>, p: seq<Edge>, t: string)
    requires Visits(edges, start, order) && order != [] && ClosedUnder(edges, order)
    requires IsPath(edges, p, start, t)
    ensures t in order
    decreases |p|
  {
    if p != [] {
      var last := p[|p| - 1];
      if |p| == 1 {
        assert last.source == start == order[0];
      } else {
        PathPrefix(edges, p, start, t, |p| - 1);
        ClosedKeepsWalks(edges, start, order, p[..|p| - 1], p[|p| - 2].target);
      }
      assert last in edges;
    }
  }

  /**
   * A search visits exactly the ids reachable from the start up to the
   * end, and it visits the end if and only if the end is reachable.
   */
  lemma SearchedFindsEnd(edges: seq<Edge>, start: string, end: string, order: seq<string>,
                         previous: map<string, string>, visitedEdges: set<string>)
    requires Searched(edges, start, end, order, previous, visitedEdges)
    ensures forall i :: 0 <= i < |order| ==> Reachable(edges, start, order[i])
    ensures end in order <==> Reachable(edges, start, end)
    ensures end !in order ==> forall t :: Reachable(edges, start, t) ==> t in order
  {
    forall i | 0 <= i < |order| ensures Reachable(edges, start, order[i]) {
      VisitedReachable(edges, start, order, i);
    }
    if end !in order {
      forall t | Reachable(edges, start, t) ensures t in order {
        var p :| IsPath(edges, p, start, t);
        ClosedKeepsWalks(edges, start, order, p, t);
      }
    }
  }

  /**
   * One turn of the `while (queue.length)` loop of `bfs` and `dfs`, on the
   * entry at `p` (`shift()` takes the front, `pop()` the top): a visited id
   * is dropped; otherwise it is visited, its edge from the parent is
   * highlighted, and unless it is the end node, the unvisited targets of its
   * outgoing edges are pushed with it as their parent (in reverse order
   * when `reversed`, as `dfs` does) and recorded in `previous`.
   */
  method SearchStep(edges: seq<Edge>, startId: string, endId: string, visitedNodes0: seq<string>,
                    visitedEdges0: set<string>, work0: seq<Item>, previous0: map<string, string>,
                    p: nat, reversed: bool)
    returns (visitedNodes: seq<string>, visitedEdges: set<string>, work: seq<Item>,
             previous: map<string, string>, found: bool)
    requires Searching(edges, startId, visitedNodes0, work0, previous0, visitedEdges0) && Frontier(edges, visitedNodes0, work0)
    requires endId !in visitedNodes0 && p < |work0|
    ensures work0[p].0 in visitedNodes0 ==>
      !found && visitedNodes == visitedNodes0 && visitedEdges == visitedEdges0 &&
      work == Without(work0, p) && previous == previous0
    ensures work0[p].0 !in visitedNodes0 ==>
      visitedNodes == visitedNodes0 + [work0[p].0] &&
      visitedEdges == visitedEdges0 + FromParent(edges, work0[p].1, work0[p].0) &&
      (found <==> work0[p].0 == endId)
    ensures found ==>
      Visits(edges, startId, visitedNodes) && PrevOk(edges, visitedNodes, previous) &&
      EdgesOk(edges, visitedNodes, visitedEdges) && previous == previous0
    ensures work0[p].0 !in visitedNodes0 && !found ==>
      var es := if reversed then Reverse(OutEdges(edges, work0[p].0)) else OutEdges(edges, work0[p].0);
      work == Without(work0, p) + Entries(Unvisited(es, visitedNodes), work0[p].0) &&
      (forall k :: k in previous ==>
         (k in previous0 && previous[k] == previous0[k]) ||
         (previous[k] == work0[p].0 && exists j :: 0 <= j < |es| && es[j].target == k)) &&
      (forall j :: 0 <= j < |es| && es[j].target !in visitedNodes ==> es[j].target in previous && previous[es[j].target] == work0[p].0)
    ensures !found ==>
      Searching(edges, startId, visitedNodes, work, previous, visitedEdges) && Frontier(edges, visitedNodes, work) &&
      endId !in visitedNodes
  {
    var cur, parent, rest := work0[p].0, work0[p].1, Without(work0, p);
    visitedNodes, visitedEdges, work, previous, found := visitedNodes0, visitedEdges0, rest, previous0, false;
    if cur in visitedNodes0 {
      SkipKeeps(edges, startId, visitedNodes0, work0, p, previous0, visitedEdges0);
      return;
    }
    visitedNodes := visitedNodes0 + [cur];
    visitedEdges := visitedEdges0 + FromParent(edges, parent, cur);
    if cur == endId {
      VisitEnds(edges, startId, visitedNodes0, work0, p, previous0, visitedEdges0);
      found := true;
      return;
    }
    var out := OutEdges(edges, cur);
    OutEdgesAre(edges, cur);
    var es := out;
    if reversed {
      es := Reverse(out);
      ReverseLeaves(edges, cur, out);
    }
    work, previous := Expand(es, cur, visitedNodes, rest, previous0);
    VisitKeeps(edges, startId, visitedNodes0, work0, p, previous0, visitedEdges0, es, work, previous);
  }

  /**
   * `bfs(nodes, edges, startId, endId)` (the node list is not used): take
   * the first entry of the queue; skip it when visited; otherwise visit it,
   * record the edge from its parent, stop at the end, and push its
   * unvisited targets at the back.
   */
  method Bfs(edges: seq<Edge>, startId: string, endId: string)
    returns (visitedNodes: seq<string>, visitedEdges: set<string>, pathNodes: set<string>, pathEdges: set<string>,
             previous: map<string, string>, diverged: bool, ghost chain: seq<string>)
    ensures Searched(edges, startId, endId, visitedNodes, previous, visitedEdges)
    ensures Reconstructed(previous, edges, startId, endId, chain, diverged, pathNodes, pathEdges)
  {
    var work: seq<Item> := [(startId, None)];
    visitedNodes, visitedEdges, previous := [], {}, map[];
    while work != []
      invariant Searching(edges, startId, visitedNodes, work, previous, visitedEdges)
      invariant Frontier(edges, visitedNodes, work)
      invariant endId !in visitedNodes
      decreases Targets(edges, startId) - Elems(visitedNodes), |work|
    {
      ElemsAppend(visitedNodes, work[0].0);
      var found;
      visitedNodes, visitedEdges, work, previous, found :=
        SearchStep(edges, startId, endId, visitedNodes, visitedEdges, work, previous, 0, false);
      if found {
        break;
      }
    }
    pathNodes, pathEdges, diverged, chain := ReconstructPath(previous, edges, startId, endId);
  }

  /**
   * `dfs(nodes, edges, startId, endId)` (the node list is not used): as
   * `bfs`, but the entry is popped from the top of the stack and the
   * outgoing edges are pushed reversed (see `DfsPushOrder`).
   */
  method Dfs(edges: seq<Edge>, startId: string, endId: string)
    returns (visitedNodes: seq<string>, visitedEdges: set<string>, pathNodes: set<string>, pathEdges: set<string>,
             previous: map<string, string>, diverged: bool, ghost chain: seq<string>)
    ensures Searched(edges, startId, endId, visitedNodes, previous, visitedEdges)
    ensures Reconstructed(previous, edges, startId, endId, chain, diverged, pathNodes, pathEdges)
  {
    var work: seq<Item> := [(startId, None)];
    visitedNodes, visitedEdges, previous := [], {}, map[];
    while work != []
      invariant Searching(edges, startId, visitedNodes, work, previous, visitedEdges)
      invariant Frontier(edges, visitedNodes, work)
      invariant endId !in visitedNodes
      decreases Targets(edges, startId) - Elems(visitedNodes), |work|
    {
      ElemsAppend(visitedNodes, work[|work| - 1].0);
      var found;
      visitedNodes, visitedEdges, work, previous, found :=
        SearchStep(edges, startId, endId, visitedNodes, visitedEdges, work, previous, |work| - 1, true);
      if found {
        break;
      }
    }
    pathNodes, pathEdges, diverged, chain := ReconstructPath(previous, edges, startId, endId);
  }

  /** `dfs` pushes the edges reversed, so the entry on top of the stack is that of the first unvisited edge, and so on. */
  lemma DfsPushOrder(out: seq<Edge>, order: seq<string>, cur: string)
    ensures Entries(Unvisited(Reverse(out), order), cur) == Reverse(Entries(Unvisited(out, order), cur))
  {
    FilterReverse(out, (e: Edge) => e.target !in order);
    assert Unvisited(Reverse(out), order) == Reverse(Unvisited(out, order));
    EntriesReverse(Unvisited(out, order), cur);
  }

  // ----- dijkstra -----

  /** `nodes.forEach(node => distances.set(node.id, Infinity)); distances.set(startId, 0)`. */
  function StartDistances(nodes: seq<Node>, start: string): (d: map<string, Num>)
    ensures d.Keys == NodeIdSet(nodes) + {start}
    ensures d[start] == Fin(0) && forall k :: k in d && k != start ==> d[k] == Inf
  {
    AllInf(NodeIdSet(nodes))[start := Fin(0)]
  }

  function AllInf(ids: set<string>): map<string, Num> {
    map k | k in ids :: Inf
  }

  /** The loop of `nodes.forEach(...)` that sets every distance to `Infinity`, then the start to 0. */
  method InitLazy(nodes: seq<Node>, start: string) returns (d: map<string, Num>)
    ensures d == StartDistances(nodes, start)
  {
    d := map[];
    var i := 0;
    while i < |nodes|
      invariant 0 <= i <= |nodes|
      invariant d == AllInf(NodeIdSet(nodes[..i]))
    {
      assert NodeIdSet(nodes[..i + 1]) == NodeIdSet(nodes[..i]) + {nodes[i].id} by {
        assert nodes[..i + 1] == nodes[..i] + [nodes[i]];
      }
      d := d[nodes[i].id := Inf];
      i := i + 1;
    }
    assert nodes[..i] == nodes;
    d := d[start := Fin(0)];
  }

  /** The targets of the edges out of visited ids: where a relaxation can push an entry. */
  function Reached(edges: seq<Edge>, visited: seq<string>): set<string> {
    set e | e in edges && e.source in visited :: e.target
  }

  /** Every queued id lies in `T`. */
  predicate IdsIn(q: seq<(string, int)>, T: set<string>) {
    forall i :: 0 <= i < |q| ==> q[i].0 in T
  }

  /** Before the first visit the queue holds the start alone; afterwards every queued id was pushed by a visited id. */
  predicate Queued(edges: seq<Edge>, start: string, visited: seq<string>, q: seq<(string, int)>) {
    (visited == [] ==> |q| == 1 && q[0].0 == start) &&
    (visited != [] ==> IdsIn(q, Reached(edges, visited)))
  }

  /**
   * Every edge recorded in `visitedEdges` left a visited id, gave its target
   * a predecessor, and brought the target's distance strictly below its start
   * value `d0`.
   */
  ghost predicate Improved(edges: seq<Edge>, visited: seq<string>, d0: map<string, Num>, d: map<string, Num>,
                           prev: map<string, string>, visitedEdges: set<string>) {
    forall x :: x in visitedEdges ==>
      exists e :: e in edges && e.id == x && e.source in visited && e.target in prev &&
                  Less(Get(d, e.target), Get(d0, e.target))
  }

  /**
   * What `dijkstra` keeps about its maps: no distance rises above its start
   * value, every finite distance is the weight of a walk from the start,
   * every predecessor is a visited id joined by an edge, and every visited
   * edge gave its target a predecessor and a distance below its start value.
   */
  ghost predicate LazyMaps(edges: seq<Edge>, start: string, d0: map<string, Num>, visited: seq<string>,
                           d: map<string, Num>, prev: map<string, string>, visitedEdges: set<string>, wit: map<string, Walk>) {
    NoHigher(d, d0) && Witnessed(edges, {start}, d, wit) &&
    PrevOk(edges, visited, prev) && Improved(edges, visited, d0, d, prev, visitedEdges)
  }

  /** Inserting an entry whose id lies in `T` keeps every id in `T`. */
  lemma InsertIdsIn(q: seq<(string, int)>, x: (string, int), T: set<string>)
    requires IdsIn(q, T) && x.0 in T
    ensures IdsIn(Insert(q, x), T)
  {
    InsertPermutes(q, x);
    var r := Insert(q, x);
    forall i | 0 <= i < |r| ensures r[i].0 in T {
      assert r[i] in multiset(r);
      if r[i] != x {
        assert r[i] in multiset(q);
      }
    }
  }

  /**
   * Lowering the target of `e` below its distance keeps every recorded edge's
   * target below its start value, and records `e`.
   */
  lemma ImprovedRelax(edges: seq<Edge>, visited: seq<string>, d0: map<string, Num>, d: map<string, Num>,
                      prev: map<string, string>, visitedEdges: set<string>, cur: string, e: Edge, alt: Num)
    requires Improved(edges, visited, d0, d, prev, visitedEdges) && NoHigher(d, d0)
    requires e in edges && e.source in visited && Less(alt, Get(d, e.target))
    ensures Improved(edges, visited, d0, d[e.target := alt], prev[e.target := cur], visitedEdges + {e.id})
  {
    var d1, p1 := d[e.target := alt], prev[e.target := cur];
    assert Less(alt, Get(d0, e.target)) by {
      LessLe(alt, d[e.target], d0[e.target]);
    }
    forall x | x in visitedEdges + {e.id}
      ensures exists f :: f in edges && f.id == x && f.source in visited && f.target in p1 &&
                          Less(Get(d1, f.target), Get(d0, f.target))
    {
      if x == e.id {
        assert Less(Get(d1, e.target), Get(d0, e.target));
      } else {
        var f :| f in edges && f.id == x && f.source in visited && f.target in prev &&
                 Less(Get(d, f.target), Get(d0, f.target));
        assert Less(Get(d1, f.target), Get(d0, f.target));
      }
    }
  }

  /** Lowering one distance keeps every distance at or below its start value. */
  lemma NoHigherRelax(d: map<string, Num>, d0: map<string, Num>, t: string, alt: Num)
    requires NoHigher(d, d0) && t in d && Less(alt, d[t])
    ensures NoHigher(d[t := alt], d0)
  {
    LeTrans(alt, d[t], d0[t]);
  }

  /** A predecessor set to a visited id along an edge keeps `PrevOk`. */
  lemma PrevRelax(edges: seq<Edge>, visited: seq<string>, prev: map<string, string>, cur: string, e: Edge)
    requires PrevOk(edges, visited, prev) && cur in visited && e in edges && e.source == cur
    ensures PrevOk(edges, visited, prev[e.target := cur])
  {
    Runs.FindEdgeIn(edges, e);
  }

  /** One successful relaxation of an edge out of the visited `cur` keeps `LazyMaps`. */
  lemma LazyRelax(edges: seq<Edge>, start: string, d0: map<string, Num>, visited: seq<string>,
                  d: map<string, Num>, prev: map<string, string>, visitedEdges: set<string>, wit: map<string, Walk>,
                  cur: string, e: Edge)
    requires LazyMaps(edges, start, d0, visited, d, prev, visitedEdges, wit)
    requires cur in visited && e in edges && e.source == cur
    requires Less(Add(Get(d, cur), e.weight), Get(d, e.target))
    ensures Add(Get(d, cur), e.weight).Fin? && e.target in d && cur in wit
    ensures LazyMaps(edges, start, d0, visited, d[e.target := Add(Get(d, cur), e.weight)], prev[e.target := cur],
                     visitedEdges + {e.id}, Runs.Through(wit, e))
  {
    var alt := Add(Get(d, cur), e.weight);
    WitnessedRelax(edges, {start}, d, wit, cur, e);
    NoHigherRelax(d, d0, e.target, alt);
    PrevRelax(edges, visited, prev, cur, e);
    ImprovedRelax(edges, visited, d0, d, prev, visitedEdges, cur, e, alt);
  }

  /** One edge of that `forEach`: when it brings its target lower, the target is updated and pushed. */
  method LazyEdge(edges: seq<Edge>, cur: string, e: Edge, ghost start: string, ghost d0: map<string, Num>,
                  ghost visited: seq<string>, d0in: map<string, Num>, prev0: map<string, string>, ve0: set<string>,
                  ghost wit0: map<string, Walk>, pq: PriorityQueue<string>)
    returns (d: map<string, Num>, prev: map<string, string>, visitedEdges: set<string>, ghost wit: map<string, Walk>,
             ghost pushed: seq<(string, int)>)
    requires pq.Valid() && IdsIn(pq.elements, Reached(edges, visited))
    requires cur in visited && e in edges && e.source == cur
    requires LazyMaps(edges, start, d0, visited, d0in, prev0, ve0, wit0)
    modifies pq
    ensures pq.Valid() && IdsIn(pq.elements, Reached(edges, visited))
    ensures multiset(pq.elements) == multiset(old(pq.elements)) + multiset(pushed)
    ensures LazyMaps(edges, start, d0, visited, d, prev, visitedEdges, wit)
    ensures NoHigher(d, d0in)
    ensures var alt := Add(Get(d0in, cur), e.weight);
      Less(alt, Get(d0in, e.target)) ==>
        d == d0in[e.target := alt] && prev == prev0[e.target := cur] && visitedEdges == ve0 + {e.id} &&
        pushed == [(e.target, alt.n)] && pq.elements == Insert(old(pq.elements), (e.target, alt.n))
    ensures !Less(Add(Get(d0in, cur), e.weight), Get(d0in, e.target)) ==>
      d == d0in && prev == prev0 && visitedEdges == ve0 && pushed == [] && pq.elements == old(pq.elements)
  {
    d, prev, visitedEdges, wit, pushed := d0in, prev0, ve0, wit0, [];
    NoHigherRefl(d0in, d0);
    var alt := Add(Get(d, cur), e.weight);
    if Less(alt, Get(d, e.target)) {
      NoHigherRelax(d0in, d0in, e.target, alt);
      LazyRelax(edges, start, d0, visited, d, prev, visitedEdges, wit, cur, e);
      assert e.target in Reached(edges, visited);
      InsertIdsIn(pq.elements, (e.target, alt.n), Reached(edges, visited));
      wit := Runs.Through(wit, e);
      d := d[e.target := alt];
      prev := prev[e.target := cur];
      pq.Enqueue(e.target, alt.n);
      pushed := [(e.target, alt.n)];
      visitedEdges := visitedEdges + {e.id};
    }
  }

  /**
   * `edges.filter(edge => edge.source === currentId).forEach(...)` in
   * `dijkstra`: each edge whose target it brings lower gets its target a
   * new distance and predecessor, pushes the target with the new distance as
   * priority, and is recorded as visited.
   */
  method LazyRelaxAll(edges: seq<Edge>, cur: string, ghost start: string, ghost d0: map<string, Num>, ghost visited: seq<string>,
                      d0in: map<string, Num>, prev0: map<string, string>, ve0: set<string>, ghost wit0: map<string, Walk>,
                      pq: PriorityQueue<string>)
    returns (d: map<string, Num>, prev: map<string, string>, visitedEdges: set<string>, ghost wit: map<string, Walk>,
             ghost pushed: seq<(string, int)>)
    requires pq.Valid() && IdsIn(pq.elements, Reached(edges, visited))
    requires cur in visited && LazyMaps(edges, start, d0, visited, d0in, prev0, ve0, wit0)
    modifies pq
    ensures pq.Valid() && IdsIn(pq.elements, Reached(edges, visited))
    ensures multiset(pq.elements) == multiset(old(pq.elements)) + multiset(pushed)
    ensures LazyMaps(edges, start, d0, visited, d, prev, visitedEdges, wit)
    ensures NoHigher(d, d0in)
  {
    var out := OutEdges(edges, cur);
    OutEdgesAre(edges, cur);
    d, prev, visitedEdges, wit, pushed := d0in, prev0, ve0, wit0, [];
    NoHigherRefl(d0in, d0);
    for i := 0 to |out|
      invariant pq.Valid() && IdsIn(pq.elements, Reached(edges, visited))
      invariant multiset(pq.elements) == multiset(old(pq.elements)) + multiset(pushed)
      invariant LazyMaps(edges, start, d0, visited, d, prev, visitedEdges, wit)
      invariant NoHigher(d, d0in)
    {
      assert out[i] in out;
      ghost var p1;
      ghost var dBefore := d;
      d, prev, visitedEdges, wit, p1 := LazyEdge(edges, cur, out[i], start, d0, visited, d, prev, visitedEdges, wit, pq);
      Runs.NoHigherTrans(d, dBefore, d0in);
      pushed := pushed + p1;
    }
  }

  /** Recorded walks from the start, empty at the start itself. */
  lemma LazyInit(edges: seq<Edge>, nodes: seq<Node>, start: string)
    ensures LazyMaps(edges, start, StartDistances(nodes, start), [], StartDistances(nodes, start), map[], {},
                     StartWalks({start}))
  {
    var d := StartDistances(nodes, start);
    assert IsPath(edges, [], start, start);
    forall k | k in d ensures Le(d[k], d[k]) {
      assert d[k] == Fin(0) || d[k] == Inf;
    }
  }

  /** An unvisited id that is the start, or reached from a visited id, can be visited next. */
  lemma VisitReached(edges: seq<Edge>, start: string, visited: seq<string>, cur: string)
    requires Visits(edges, start, visited) && cur !in visited
    requires visited == [] ==> cur == start
    requires visited != [] ==> cur in Reached(edges, visited)
    ensures Visits(edges, start, visited + [cur])
  {
    if visited != [] {
      var e :| e in edges && e.source in visited && e.target == cur;
      var j :| 0 <= j < |visited| && visited[j] == e.source;
      Runs.FindEdgeIn(edges, e);
      VisitNext(edges, start, visited, cur, j);
    } else {
      VisitNext(edges, start, visited, cur, 0);
    }
  }

  /** The dequeued id, when not yet visited, is visited next, and the rest of the queue came from visited ids. */
  lemma LazyVisit(edges: seq<Edge>, start: string, visited: seq<string>, q: seq<(string, int)>)
    requires Visits(edges, start, visited) && Queued(edges, start, visited, q)
    requires q != [] && q[0].0 !in visited
    ensures q[0].0 in Targets(edges, start)
    ensures Visits(edges, start, visited + [q[0].0])
    ensures IdsIn(q[1..], Reached(edges, visited + [q[0].0]))
  {
    var o := visited + [q[0].0];
    if visited != [] {
      assert q[0].0 in Reached(edges, visited);
      forall i | 1 <= i < |q| ensures q[i].0 in Reached(edges, o) {
        assert q[i].0 in Reached(edges, visited);
        var f :| f in edges && f.source in visited && f.target == q[i].0;
        assert f.source in o;
      }
    }
    VisitReached(edges, start, visited, q[0].0);
  }

  /** A popped id already visited is dropped: the rest of the queue still came from visited ids. */
  lemma LazySkip(edges: seq<Edge>, start: string, visited: seq<string>, q: seq<(string, int)>)
    requires Queued(edges, start, visited, q) && q != [] && q[0].0 in visited
    ensures Queued(edges, start, visited, q[1..])
  {
    forall i | 0 <= i < |q| - 1 ensures q[1..][i].0 in Reached(edges, visited) {
      assert q[1..][i] == q[i + 1];
    }
  }

  /** With non-negative weights, the start, once at most 0, is exactly at 0. */
  lemma LazyStartAtZero(edges: seq<Edge>, start: string, d0: map<string, Num>, visited: seq<string>,
                        d: map<string, Num>, prev: map<string, string>, visitedEdges: set<string>, wit: map<string, Walk>)
    requires LazyMaps(edges, start, d0, visited, d, prev, visitedEdges, wit)
    requires NonNegative(edges) && start in d && Le(d[start], Fin(0))
    ensures d[start] == Fin(0)
  {
    SourceAtZero(edges, {start}, d, wit, start);
  }

  /** Visiting one more id keeps what `LazyMaps` says about visited ids. */
  lemma LazyMapsGrow(edges: seq<Edge>, start: string, d0: map<string, Num>, visited: seq<string>,
                     d: map<string, Num>, prev: map<string, string>, visitedEdges: set<string>, wit: map<string, Walk>, cur: string)
    requires LazyMaps(edges, start, d0, visited, d, prev, visitedEdges, wit)
    ensures LazyMaps(edges, start, d0, visited + [cur], d, prev, visitedEdges, wit)
  {
    forall x | x in visitedEdges
      ensures exists e :: e in edges && e.id == x && e.source in visited + [cur] && e.target in prev &&
                          Less(Get(d, e.target), Get(d0, e.target))
    {
      var e :| e in edges && e.id == x && e.source in visited && e.target in prev &&
               Less(Get(d, e.target), Get(d0, e.target));
      assert e.source in visited + [cur];
    }
  }

  /**
   * `dijkstra(nodes, edges, startId, endId)`: every node starts at
   * `Infinity` and the start at 0; the queue is popped until empty, an id
   * already visited is skipped, the end stops the loop once visited, and
   * every other visited id relaxes its outgoing edges, pushing each target
   * it lowers with the new distance.  The distances and the ghost walks
   * behind them are returned beside the source's results.
   */
  method Dijkstra(nodes: seq<Node>, edges: seq<Edge>, startId: string, endId: string)
    returns (visitedNodes: seq<string>, visitedEdges: set<string>, pathNodes: set<string>, pathEdges: set<string>,
             distances: map<string, Num>, previous: map<string, string>, diverged: bool,
             ghost chain: seq<string>, ghost wit: map<string, Walk>)
    ensures Visits(edges, startId, visitedNodes) && visitedNodes != []
    ensures endId in visitedNodes ==> visitedNodes[|visitedNodes| - 1] == endId
    ensures LazyMaps(edges, startId, StartDistances(nodes, startId), visitedNodes, distances, previous, visitedEdges, wit)
    ensures startId in distances && Le(distances[startId], Fin(0))
    ensures NonNegative(edges) ==> distances[startId] == Fin(0)
    ensures Reconstructed(previous, edges, startId, endId, chain, diverged, pathNodes, pathEdges)
  {
    var d0 := InitLazy(nodes, startId);
    LazyInit(edges, nodes, startId);
    distances, previous, visitedNodes, visitedEdges, wit := d0, map[], [], {}, StartWalks({startId});
    var pq := new PriorityQueue<string>();
    pq.Enqueue(startId, 0);
    while !pq.IsEmpty()
      invariant pq.Valid()
      invariant Visits(edges, startId, visitedNodes) && Queued(edges, startId, visitedNodes, pq.elements)
      invariant LazyMaps(edges, startId, d0, visitedNodes, distances, previous, visitedEdges, wit)
      invariant endId !in visitedNodes
      decreases Targets(edges, startId) - Elems(visitedNodes), |pq.elements|
    {
      ghost var q := pq.elements;
      var item := pq.Dequeue();
      var cur := item.value;
      if cur in visitedNodes {
        LazySkip(edges, startId, visitedNodes, q);
        continue;
      }
      LazyVisit(edges, startId, visitedNodes, q);
      LazyMapsGrow(edges, startId, d0, visitedNodes, distances, previous, visitedEdges, wit, cur);
      ElemsAppend(visitedNodes, cur);
      visitedNodes := visitedNodes + [cur];
      if cur == endId {
        break;
      }
      ghost var pushed;
      distances, previous, visitedEdges, wit, pushed :=
        LazyRelaxAll(edges, cur, startId, d0, visitedNodes, distances, previous, visitedEdges, wit, pq);
    }
    if NonNegative(edges) {
      LazyStartAtZero(edges, startId, d0, visitedNodes, distances, previous, visitedEdges, wit);
    }
    pathNodes, pathEdges, diverged, chain := ReconstructPath(previous, edges, startId, endId);
  }

  // ----- astar -----

  /** The heuristic's value for `id`: `heuristic(nodes.find(n => n.id === id)!, nodes.find(n => n.id === endId)!)`. */
  function H(h: (Option<Node>, Option<Node>) -> int, nodes: seq<Node>, id: string, end: string): int {
    h(FindNode(nodes, id), FindNode(nodes, end))
  }

  /**
   * The heuristic as `astar` applies it, as a function of the id:
   * `heuristic(nodes.find(n => n.id === id)!, nodes.find(n => n.id === endId)!)`.
   */
  function Heur(h: (Option<Node>, Option<Node>) -> int, nodes: seq<Node>, end: string): string -> int {
    (id: string) => H(h, nodes, id, end)
  }

  /** Every `fScore` is its `gScore` plus the heuristic (so `Infinity` where the `gScore` is). */
  predicate FScores(g: map<string, Num>, f: map<string, Num>, hv: string -> int) {
    f.Keys == g.Keys && forall k :: k in g ==> f[k] == Add(g[k], hv(k))
  }

  /** The ids of the pairs in the open set: no id is queued twice. */
  predicate DistinctIds(q: seq<(string, int)>) {
    forall i, j :: 0 <= i < j < |q| ==> q[i].0 != q[j].0
  }

  /** Enqueueing an id the open set does not contain keeps its ids distinct. */
  lemma {:induction false} InsertDistinct(q: seq<(string, int)>, x: (string, int))
    requires DistinctIds(q)
    requires forall i :: 0 <= i < |q| ==> q[i].0 != x.0
    ensures DistinctIds(Insert(q, x))
  {
    if q == [] || x.1 < q[0].1 {
      var r := [x] + q;
      forall i, j | 0 <= i < j < |r| ensures r[i].0 != r[j].0 {
        assert r[j] == q[j - 1];
        if i > 0 {
          assert r[i] == q[i - 1];
        }
      }
    } else {
      var t := q[1..];
      assert DistinctIds(t) by {
        forall i, j | 0 <= i < j < |t| ensures t[i].0 != t[j].0 {
          assert t[i] == q[i + 1] && t[j] == q[j + 1];
        }
      }
      InsertDistinct(t, x);
      var rest := Insert(t, x);
      InsertPermutes(t, x);
      var r := [q[0]] + rest;
      forall i, j | 0 <= i < j < |r| ensures r[i].0 != r[j].0 {
        assert r[j] == rest[j - 1];
        if i > 0 {
          assert r[i] == rest[i - 1];
        } else {
          assert rest[j - 1] in multiset(rest);
          if rest[j - 1] != x {
            assert rest[j - 1] in t;
            var k :| 0 <= k < |t| && t[k] == rest[j - 1];
            assert q[k + 1] == t[k];
          }
        }
      }
    }
  }

  /** Dequeueing keeps the ids of the rest distinct. */
  lemma DistinctTail(q: seq<(string, int)>)
    requires DistinctIds(q) && q != []
    ensures DistinctIds(q[1..])
  {
    forall i, j | 0 <= i < j < |q| - 1 ensures q[1..][i].0 != q[1..][j].0 {
      assert q[1..][i] == q[i + 1] && q[1..][j] == q[j + 1];
    }
  }

  /** The open set after `if (!openSet.contains(id)) openSet.enqueue(id, priority)`. */
  function Admitted(q: seq<(string, int)>, id: string, priority: int): seq<(string, int)> {
    if exists i :: 0 <= i < |q| && q[i].0 == id then q else Insert(q, (id, priority))
  }

  /** `if (!openSet.contains(id)) openSet.enqueue(id, priority)`. */
  method Admit(pq: PriorityQueue<string>, id: string, priority: int, ghost T: set<string>)
    requires pq.Valid() && DistinctIds(pq.elements) && IdsIn(pq.elements, T) && id in T
    modifies pq
    ensures pq.Valid() && DistinctIds(pq.elements) && IdsIn(pq.elements, T)
    ensures (exists i :: 0 <= i < |old(pq.elements)| && old(pq.elements)[i].0 == id) ==> pq.elements == old(pq.elements)
    ensures (forall i :: 0 <= i < |old(pq.elements)| ==> old(pq.elements)[i].0 != id) ==>
              pq.elements == Insert(old(pq.elements), (id, priority))
    ensures pq.elements == Admitted(old(pq.elements), id, priority)
  {
    if !pq.Contains(id) {
      InsertIdsIn(pq.elements, (id, priority), T);
      InsertDistinct(pq.elements, (id, priority));
      pq.Enqueue(id, priority);
    }
  }

  /** The scores `astar` starts from: every node at `Infinity`, the start at 0 and at its heuristic. */
  method InitScores(nodes: seq<Node>, start: string, hv: string -> int)
    returns (g: map<string, Num>, f: map<string, Num>)
    ensures g == StartDistances(nodes, start)
    ensures f == AllInf(NodeIdSet(nodes))[start := Fin(hv(start))]
  {
    g, f := map[], map[];
    var i := 0;
    while i < |nodes|
      invariant 0 <= i <= |nodes|
      invariant g == AllInf(NodeIdSet(nodes[..i])) && f == g
    {
      assert NodeIdSet(nodes[..i + 1]) == NodeIdSet(nodes[..i]) + {nodes[i].id} by {
        assert nodes[..i + 1] == nodes[..i] + [nodes[i]];
      }
      g := g[nodes[i].id := Inf];
      f := f[nodes[i].id := Inf];
      i := i + 1;
    }
    assert nodes[..i] == nodes;
    g := g[start := Fin(0)];
    f := f[start := Fin(hv(start))];
  }

  /** The start scores agree: the start's `fScore` is its heuristic, every other score is `Infinity`. */
  lemma InitScoresAgree(nodes: seq<Node>, start: string, hv: string -> int)
    ensures FScores(StartDistances(nodes, start), AllInf(NodeIdSet(nodes))[start := Fin(hv(start))], hv)
  {
  }

  /** `fScore.set(t, alt + heuristic(...))`: the new `fScore` of a target lowered to `alt`. */
  function FScoreAt(f: map<string, Num>, hv: string -> int, t: string, alt: Num): map<string, Num>
    requires alt.Fin?
  {
    f[t := Fin(alt.n + hv(t))]
  }

  /** One lowered `gScore` with its `fScore` lowered to match keeps `FScores`. */
  lemma FScoresRelax(g: map<string, Num>, f: map<string, Num>, hv: string -> int, t: string, alt: Num)
    requires FScores(g, f, hv) && t in g && alt.Fin?
    ensures FScores(g[t := alt], FScoreAt(f, hv, t, alt), hv)
  {
    var g1, f1 := g[t := alt], FScoreAt(f, hv, t, alt);
    assert f1.Keys == f.Keys + {t} && g1.Keys == g.Keys + {t};
    forall k | k in g1 ensures f1[k] == Add(g1[k], hv(k)) {
      if k != t {
        assert f1[k] == f[k] && g1[k] == g[k];
      }
    }
  }

  /** One successful relaxation in `astar` keeps `LazyMaps` for the `gScore` and `FScores` between the scores. */
  lemma AStarRelax(edges: seq<Edge>, hv: string -> int,
                   start: string, g0: map<string, Num>, visited: seq<string>, g: map<string, Num>, f: map<string, Num>,
                   prev: map<string, string>, visitedEdges: set<string>, wit: map<string, Walk>, cur: string, e: Edge)
    requires LazyMaps(edges, start, g0, visited, g, prev, visitedEdges, wit) && FScores(g, f, hv)
    requires cur in visited && e in edges && e.source == cur
    requires Less(Add(Get(g, cur), e.weight), Get(g, e.target))
    ensures Add(Get(g, cur), e.weight).Fin? && e.target in g && cur in wit && e.target in Reached(edges, visited)
    ensures LazyMaps(edges, start, g0, visited, g[e.target := Add(Get(g, cur), e.weight)], prev[e.target := cur],
                     visitedEdges + {e.id}, Runs.Through(wit, e))
    ensures FScores(g[e.target := Add(Get(g, cur), e.weight)],
                    FScoreAt(f, hv, e.target, Add(Get(g, cur), e.weight)), hv)
  {
    LazyRelax(edges, start, g0, visited, g, prev, visitedEdges, wit, cur, e);
    FScoresRelax(g, f, hv, e.target, Add(Get(g, cur), e.weight));
  }

  /**
   * The score updates of one edge of `astar`'s `forEach`: when the edge
   * brings its target's `gScore` lower, the target gets a new predecessor,
   * `gScore` and `fScore`, and the edge is recorded.
   */
  method AStarLower(edges: seq<Edge>, hv: string -> int,
                    cur: string, e: Edge, ghost start: string, ghost g0: map<string, Num>, ghost visited: seq<string>,
                    gIn: map<string, Num>, fIn: map<string, Num>, prev0: map<string, string>, ve0: set<string>,
                    ghost wit0: map<string, Walk>)
    returns (g: map<string, Num>, f: map<string, Num>, prev: map<string, string>, visitedEdges: set<string>,
             ghost wit: map<string, Walk>, lowered: bool, priority: int)
    requires cur in visited && e in edges && e.source == cur
    requires LazyMaps(edges, start, g0, visited, gIn, prev0, ve0, wit0) && FScores(gIn, fIn, hv)
    ensures LazyMaps(edges, start, g0, visited, g, prev, visitedEdges, wit) && FScores(g, f, hv)
    ensures NoHigher(g, gIn)
    ensures lowered <==> Less(Add(Get(gIn, cur), e.weight), Get(gIn, e.target))
    ensures lowered ==> e.target in Reached(edges, visited)
    ensures lowered ==>
      var tentative := Add(Get(gIn, cur), e.weight);
      tentative.Fin? && g == gIn[e.target := tentative] && f == FScoreAt(fIn, hv, e.target, tentative) &&
      prev == prev0[e.target := cur] && visitedEdges == ve0 + {e.id} && priority == tentative.n + hv(e.target)
    ensures !lowered ==> g == gIn && f == fIn && prev == prev0 && visitedEdges == ve0
  {
    var tentative := Add(Get(gIn, cur), e.weight);
    lowered := Less(tentative, Get(gIn, e.target));
    NoHigherRefl(gIn, g0);
    if lowered {
      NoHigherRelax(gIn, gIn, e.target, tentative);
      AStarRelax(edges, hv, start, g0, visited, gIn, fIn, prev0, ve0, wit0, cur, e);
      priority := tentative.n + hv(e.target);
      g, f, prev, visitedEdges, wit := gIn[e.target := tentative], FScoreAt(fIn, hv, e.target, tentative),
                                      prev0[e.target := cur], ve0 + {e.id}, Runs.Through(wit0, e);
    } else {
      g, f, prev, visitedEdges, wit, priority := gIn, fIn, prev0, ve0, wit0, 0;
    }
  }

  /**
   * One edge of `astar`'s `forEach`: the score updates, and then the
   * target is enqueued with its new `fScore` unless the open set already
   * contains it (its old priority then stays).
   */
  method AStarEdge(edges: seq<Edge>, hv: string -> int,
                   cur: string, e: Edge, ghost start: string, ghost g0: map<string, Num>, ghost visited: seq<string>,
                   gIn: map<string, Num>, fIn: map<string, Num>, prev0: map<string, string>, ve0: set<string>,
                   ghost wit0: map<string, Walk>, pq: PriorityQueue<string>)
    returns (g: map<string, Num>, f: map<string, Num>, prev: map<string, string>, visitedEdges: set<string>,
             ghost wit: map<string, Walk>, lowered: bool, priority: int)
    requires pq.Valid() && DistinctIds(pq.elements) && IdsIn(pq.elements, Reached(edges, visited))
    requires cur in visited && e in edges && e.source == cur
    requires LazyMaps(edges, start, g0, visited, gIn, prev0, ve0, wit0) && FScores(gIn, fIn, hv)
    modifies pq
    ensures pq.Valid() && DistinctIds(pq.elements) && IdsIn(pq.elements, Reached(edges, visited))
    ensures LazyMaps(edges, start, g0, visited, g, prev, visitedEdges, wit) && FScores(g, f, hv)
    ensures NoHigher(g, gIn)
    ensures lowered <==> Less(Add(Get(gIn, cur), e.weight), Get(gIn, e.target))
    ensures lowered ==>
      var tentative := Add(Get(gIn, cur), e.weight);
      tentative.Fin? && g == gIn[e.target := tentative] && f == FScoreAt(fIn, hv, e.target, tentative) &&
      prev == prev0[e.target := cur] && visitedEdges == ve0 + {e.id} && priority == tentative.n + hv(e.target)
    ensures lowered ==> pq.elements == Admitted(old(pq.elements), e.target, priority)
    ensures !lowered ==>
      g == gIn && f == fIn && prev == prev0 && visitedEdges == ve0 && pq.elements == old(pq.elements)
  {
    g, f, prev, visitedEdges, wit, lowered, priority :=
      AStarLower(edges, hv, cur, e, start, g0, visited, gIn, fIn, prev0, ve0, wit0);
    if lowered {
      Admit(pq, e.target, priority, Reached(edges, visited));
    }
  }

  /** `edges.filter(edge => edge.source === currentId).forEach(...)` in `astar`. */
  method AStarRelaxAll(edges: seq<Edge>, hv: string -> int,
                       cur: string, ghost start: string, ghost g0: map<string, Num>, ghost visited: seq<string>,
                       gIn: map<string, Num>, fIn: map<string, Num>, prev0: map<string, string>, ve0: set<string>,
                       ghost wit0: map<string, Walk>, pq: PriorityQueue<string>)
    returns (g: map<string, Num>, f: map<string, Num>, prev: map<string, string>, visitedEdges: set<string>,
             ghost wit: map<string, Walk>)
    requires pq.Valid() && DistinctIds(pq.elements) && IdsIn(pq.elements, Reached(edges, visited))
    requires cur in visited
    requires LazyMaps(edges, start, g0, visited, gIn, prev0, ve0, wit0) && FScores(gIn, fIn, hv)
    modifies pq
    ensures pq.Valid() && DistinctIds(pq.elements) && IdsIn(pq.elements, Reached(edges, visited))
    ensures LazyMaps(edges, start, g0, visited, g, prev, visitedEdges, wit) && FScores(g, f, hv)
    ensures NoHigher(g, gIn)
  {
    var out := OutEdges(edges, cur);
    OutEdgesAre(edges, cur);
    g, f, prev, visitedEdges, wit := gIn, fIn, prev0, ve0, wit0;
    NoHigherRefl(gIn, g0);
    for i := 0 to |out|
      invariant pq.Valid() && DistinctIds(pq.elements) && IdsIn(pq.elements, Reached(edges, visited))
      invariant LazyMaps(edges, start, g0, visited, g, prev, visitedEdges, wit) && FScores(g, f, hv)
      invariant NoHigher(g, gIn)
    {
      assert out[i] in out;
      ghost var gBefore := g;
      var lowered, priority;
      g, f, prev, visitedEdges, wit, lowered, priority :=
        AStarEdge(edges, hv, cur, out[i], start, g0, visited, g, f, prev, visitedEdges, wit, pq);
      Runs.NoHigherTrans(g, gBefore, gIn);
    }
  }

  /**
   * One turn of `astar`'s loop: dequeue, mark visited (a visited id stays
   * where it was), stop at the end, or relax the outgoing edges.
   */
  method AStarTurn(edges: seq<Edge>, startId: string, endId: string, hv: string -> int, ghost g0: map<string, Num>, visited0: seq<string>,
                   gIn: map<string, Num>, fIn: map<string, Num>, prev0: map<string, string>, ve0: set<string>,
                   ghost wit0: map<string, Walk>, pq: PriorityQueue<string>)
    returns (visitedNodes: seq<string>, gScore: map<string, Num>, fScore: map<string, Num>, previous: map<string, string>,
             visitedEdges: set<string>, ghost wit: map<string, Walk>, cur: string, stop: bool)
    requires pq.Valid() && DistinctIds(pq.elements) && pq.elements != []
    requires Visits(edges, startId, visited0) && Queued(edges, startId, visited0, pq.elements)
    requires LazyMaps(edges, startId, g0, visited0, gIn, prev0, ve0, wit0) && FScores(gIn, fIn, hv)
    requires endId !in visited0
    modifies pq
    ensures pq.Valid() && DistinctIds(pq.elements)
    ensures Visits(edges, startId, visitedNodes) && Queued(edges, startId, visitedNodes, pq.elements)
    ensures LazyMaps(edges, startId, g0, visitedNodes, gScore, previous, visitedEdges, wit)
    ensures FScores(gScore, fScore, hv)
    ensures visitedNodes != []
    ensures cur == old(pq.elements)[0].0 && forall x :: x in old(pq.elements) ==> old(pq.elements)[0].1 <= x.1
    ensures visitedNodes == if cur in visited0 then visited0 else visited0 + [cur]
    ensures stop <==> cur == endId
    ensures stop ==> endId in visitedNodes && visitedNodes[|visitedNodes| - 1] == endId
    ensures stop ==> gScore == gIn && fScore == fIn && previous == prev0 && visitedEdges == ve0 &&
                     pq.elements == old(pq.elements)[1..]
    ensures !stop ==> endId !in visitedNodes
    ensures NoHigher(gScore, gIn)
  {
    gScore, fScore, previous, visitedEdges, wit, stop := gIn, fIn, prev0, ve0, wit0, false;
    NoHigherRefl(gIn, g0);
    ghost var q := pq.elements;
    DistinctTail(q);
    var item := pq.Dequeue();
    cur := item.value;
    if cur !in visited0 {
      LazyVisit(edges, startId, visited0, q);
      LazyMapsGrow(edges, startId, g0, visited0, gScore, previous, visitedEdges, wit, cur);
      visitedNodes := visited0 + [cur];
    } else {
      LazySkip(edges, startId, visited0, q);
      visitedNodes := visited0;
    }
    if cur == endId {
      return visitedNodes, gScore, fScore, previous, visitedEdges, wit, cur, true;
    }
    gScore, fScore, previous, visitedEdges, wit :=
      AStarRelaxAll(edges, hv, cur, startId, g0, visitedNodes, gScore, fScore, previous, visitedEdges, wit, pq);
  }

  /**
   * The main loop of `astar`: turn after turn while the open set is not
   * empty, for at most `fuel` turns, until the end is visited.
   */
  method AStarLoop(edges: seq<Edge>, startId: string, endId: string, hv: string -> int, ghost g0: map<string, Num>,
                   g1: map<string, Num>, f1: map<string, Num>, pq: PriorityQueue<string>, fuel: nat)
    returns (visitedNodes: seq<string>, gScore: map<string, Num>, fScore: map<string, Num>, previous: map<string, string>,
             visitedEdges: set<string>, exhausted: bool, ghost wit: map<string, Walk>)
    requires startId in f1 && f1[startId].Fin? && pq.Valid() && pq.elements == [(startId, f1[startId].n)]
    requires LazyMaps(edges, startId, g0, [], g1, map[], {}, StartWalks({startId})) && FScores(g1, f1, hv)
    modifies pq
    ensures Visits(edges, startId, visitedNodes)
    ensures fuel > 0 ==> visitedNodes != []
    ensures endId in visitedNodes ==> visitedNodes[|visitedNodes| - 1] == endId && !exhausted
    ensures LazyMaps(edges, startId, g0, visitedNodes, gScore, previous, visitedEdges, wit)
    ensures FScores(gScore, fScore, hv)
    ensures NoHigher(gScore, g1)
  {
    gScore, fScore, previous, visitedNodes, visitedEdges, wit := g1, f1, map[], [], {}, StartWalks({startId});
    NoHigherRefl(g1, g0);
    var left := fuel;
    exhausted := false;
    while !pq.IsEmpty()
      invariant pq.Valid() && DistinctIds(pq.elements)
      invariant Visits(edges, startId, visitedNodes) && Queued(edges, startId, visitedNodes, pq.elements)
      invariant LazyMaps(edges, startId, g0, visitedNodes, gScore, previous, visitedEdges, wit)
      invariant FScores(gScore, fScore, hv) && NoHigher(gScore, g1)
      invariant endId !in visitedNodes && !exhausted
      invariant visitedNodes == [] ==> left == fuel
      decreases left
    {
      if left == 0 {
        exhausted := true;
        break;
      }
      left := left - 1;
      ghost var gBefore := gScore;
      var cur, stop;
      visitedNodes, gScore, fScore, previous, visitedEdges, wit, cur, stop :=
        AStarTurn(edges, startId, endId, hv, g0, visitedNodes, gScore, fScore, previous, visitedEdges, wit, pq);
      Runs.NoHigherTrans(gScore, gBefore, g1);
      if stop {
        break;
      }
    }
  }

  /**
   * `astar(nodes, edges, startId, endId, heuristic)`: the open set starts
   * with the start at its heuristic; each turn dequeues the id of least
   * priority, adds it to the visited set (where it may already be), stops
   * at the end, and otherwise relaxes its outgoing edges.  Nothing bounds
   * how often an id re-enters the open set, so the model runs at most
   * `fuel` turns and reports `exhausted` when it stopped for that reason.
   */
  method AStar(nodes: seq<Node>, edges: seq<Edge>, startId: string, endId: string,
               h: (Option<Node>, Option<Node>) -> int, fuel: nat)
    returns (visitedNodes: seq<string>, visitedEdges: set<string>, pathNodes: set<string>, pathEdges: set<string>,
             gScore: map<string, Num>, fScore: map<string, Num>, previous: map<string, string>, diverged: bool,
             exhausted: bool, ghost chain: seq<string>, ghost wit: map<string, Walk>)
    ensures Visits(edges, startId, visitedNodes)
    ensures fuel > 0 ==> visitedNodes != []
    ensures endId in visitedNodes ==> visitedNodes[|visitedNodes| - 1] == endId && !exhausted
    ensures LazyMaps(edges, startId, StartDistances(nodes, startId), visitedNodes, gScore, previous, visitedEdges, wit)
    ensures FScores(gScore, fScore, Heur(h, nodes, endId))
    ensures startId in gScore && Le(gScore[startId], Fin(0))
    ensures NonNegative(edges) ==> gScore[startId] == Fin(0)
    ensures Reconstructed(previous, edges, startId, endId, chain, diverged, pathNodes, pathEdges)
  {
    var hv := Heur(h, nodes, endId);
    var g1, f1 := InitScores(nodes, startId, hv);
    InitScoresAgree(nodes, startId, hv);
    LazyInit(edges, nodes, startId);
    var pq := new PriorityQueue<string>();
    pq.Enqueue(startId, f1[startId].n);
    visitedNodes, gScore, fScore, previous, visitedEdges, exhausted, wit :=
      AStarLoop(edges, startId, endId, hv, g1, g1, f1, pq, fuel);
    if NonNegative(edges) {
      LazyStartAtZero(edges, startId, g1, visitedNodes, gScore, previous, visitedEdges, wit);
    }
    pathNodes, pathEdges, diverged, chain := ReconstructPath(previous, edges, startId, endId);
  }
}
