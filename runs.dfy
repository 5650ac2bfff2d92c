/**
 * The parts of the three visualization runs of the `useGraph` hook that
 * do not touch the hook's state: the highlighted sets, how a run ends,
 * Dijkstra's choice of the next node, the relaxation of one node's
 * outgoing edges, and the negative-cycle test of Bellman-Ford.
 */
module Runs {
  import opened Js
  import opened Seqs
  import opened GraphTypes
  import opened Distances
  import opened GraphEdit

  /** `VisualizationStateSet`: what the canvas highlights. */
  datatype VizSets = VizSets(visited: set<string>, visitedEdges: set<string>, path: set<string>, pathEdges: set<string>)

  const NoViz := VizSets({}, {}, {}, {})

  /**
   * How a run ends: without a start or end node; stopped by the user; having
   * shown its path; by the `catch` after Bellman-Ford's negative-cycle test
   * throws; in a walk along `previous` that repeats forever; or, for SPFA,
   * when the model's bound on queue steps is spent.
   */
  datatype Outcome = MissingEndpoints | Cancelled | Completed | NegativeCycle | Diverged | OutOfFuel

  predicate NotNaN(d: map<string, Num>) {
    forall k :: k in d ==> d[k] != NaN
  }

  /** `distances.get(source)! + weight < distances.get(target)!`: relaxing `e` would lower its target. */
  predicate Relaxable(d: map<string, Num>, e: Edge) {
    Less(Add(Get(d, e.source), e.weight), Get(d, e.target))
  }

  /** Every recorded predecessor is joined to its node by an edge, which the path display then finds. */
  predicate PrevSound(edges: seq<Edge>, prev: map<string, string>) {
    forall k :: k in prev ==> FindEdge(edges, prev[k], k).Some?
  }

  /** The ids of a list of edges, as the set the display highlights. */
  function IdsOf(es: seq<Edge>): set<string> {
    if es == [] then {} else IdsOf(es[..|es| - 1]) + {es[|es| - 1].id}
  }

  /** Highlighting one more relaxed edge's id. */
  lemma ShownStep(shown: set<string>, a: seq<Edge>, e: Edge)
    ensures shown + IdsOf(a) + {e.id} == shown + IdsOf(a + [e])
  {
    assert (a + [e])[..|a|] == a;
  }

  lemma {:induction false} IdsOfConcat(a: seq<Edge>, b: seq<Edge>)
    ensures IdsOf(a + b) == IdsOf(a) + IdsOf(b)
  {
    if b == [] {
      assert a + b == a;
    } else {
      assert (a + b)[..|a + b| - 1] == a + b[..|b| - 1];
      IdsOfConcat(a, b[..|b| - 1]);
    }
  }

  /** A list of edges starts its own order of highlighting: a sequence of `Quiet` checks. */
  predicate Quiet(d: map<string, Num>, es: seq<Edge>) {
    forall e :: e in es ==> !Relaxable(d, e)
  }

  lemma QuietStep(d: map<string, Num>, es: seq<Edge>, i: nat)
    requires i < |es| && Quiet(d, es[..i]) && !Relaxable(d, es[i])
    ensures Quiet(d, es[..i + 1])
  {
    assert es[..i + 1] == es[..i] + [es[i]];
  }

  /** An edge in the list is found by `edges.find` on its endpoints. */
  lemma FindEdgeIn(edges: seq<Edge>, e: Edge)
    requires e in edges
    ensures FindEdge(edges, e.source, e.target).Some?
  {
    var i :| 0 <= i < |edges| && edges[i] == e;
  }

  /** The id at index `i` is strictly nearer than every id after it. */
  predicate BeatsLater(ids: seq<string>, d: map<string, Num>, i: nat)
    requires i < |ids|
  {
    forall j :: i < j < |ids| ==> Less(Get(d, ids[i]), Get(d, ids[j]))
  }

  /**
   * `Array.from(unvisited).reduce((a, b) => d.get(a)! < d.get(b)! ? a : b)`:
   * the chosen id is a minimum, and it is the last of the minima, since a
   * later id that is not strictly farther replaces it.
   */
  function SelectMin(ids: seq<string>, d: map<string, Num>): (r: string)
    requires ids != []
    ensures r in ids
    ensures exists i :: 0 <= i < |ids| && ids[i] == r && BeatsLater(ids, d, i)
    ensures (forall x :: x in ids ==> Get(d, x) != NaN) ==>
      forall x :: x in ids ==> Le(Get(d, r), Get(d, x))
  {
    if |ids| == 1 then ids[0]
    else
      var init := ids[..|ids| - 1];
      var a, b := SelectMin(init, d), ids[|ids| - 1];
      assert ids == init + [b];
      assert forall x :: x in ids <==> x in init || x == b;
      if Less(Get(d, a), Get(d, b)) then
        assert exists i :: 0 <= i < |ids| && ids[i] == a && BeatsLater(ids, d, i) by {
          var i :| 0 <= i < |init| && init[i] == a && BeatsLater(init, d, i);
          assert forall j :: i < j < |ids| ==> ids[j] == if j < |init| then init[j] else b;
          assert ids[i] == a;
        }
        a
      else
        assert BeatsLater(ids, d, |ids| - 1);
        assert (forall x :: x in ids ==> Get(d, x) != NaN) ==> forall x :: x in ids ==> Le(Get(d, b), Get(d, x)) by {
          if forall x :: x in ids ==> Get(d, x) != NaN {
            NotLessIsLe(Get(d, a), Get(d, b));
            forall x | x in init ensures Le(Get(d, b), Get(d, x)) {
              LeTrans(Get(d, b), Get(d, a), Get(d, x));
            }
          }
        }
        b
  }

  /** Each relaxed edge lowered its target and made `cur` its predecessor. */
  predicate Lowered(d0: map<string, Num>, d: map<string, Num>, prev: map<string, string>, relaxed: seq<Edge>, cur: string) {
    forall e :: e in relaxed ==>
      e.source == cur && Less(Get(d, e.target), Get(d0, e.target)) && e.target in prev && prev[e.target] == cur
  }

  /** Relaxing `e` left its target with a predecessor and with a distance below its initial one in `d0`. */
  predicate Improves(d0: map<string, Num>, d: map<string, Num>, prev: map<string, string>, e: Edge) {
    e.target in prev && Less(Get(d, e.target), Get(d0, e.target))
  }

  /** Every id with a recorded predecessor has a distance below its initial one in `d0`. */
  predicate PrevLowered(d0: map<string, Num>, d: map<string, Num>, prev: map<string, string>) {
    forall k :: k in prev ==> k in d && k in d0 && Less(d[k], d0[k])
  }

  /** Lowering `t` to `alt` and recording its predecessor `p` keeps `PrevLowered`. */
  lemma PrevLoweredRelax(d0: map<string, Num>, d: map<string, Num>, prev: map<string, string>, t: string, alt: Num, p: string)
    requires PrevLowered(d0, d, prev) && NoHigher(d, d0) && Less(alt, Get(d, t))
    ensures PrevLowered(d0, d[t := alt], prev[t := p])
  {
    assert t in d;
    LessLe(alt, d[t], d0[t]);
  }

  /** When every predecessor lowered its node, an edge whose target has one `Improves`. */
  lemma TargetsImproving(d0: map<string, Num>, d: map<string, Num>, prev: map<string, string>, relaxed: seq<Edge>)
    requires (forall e :: e in relaxed ==> e.target in prev) && PrevLowered(d0, d, prev)
    ensures Improving(d0, d, prev, relaxed)
  {
  }

  /** Predecessor maps only gain keys, so targets that had a predecessor keep one. */
  lemma TrackedMono(edges: seq<Edge>, relaxed: seq<Edge>, prevA: map<string, string>, prevB: map<string, string>)
    requires (forall e :: e in relaxed ==> e in edges && e.target in prevA) && prevA.Keys <= prevB.Keys
    ensures forall e :: e in relaxed ==> e in edges && e.target in prevB
  {
  }

  /** Appending relaxed edges whose targets have a predecessor in the newer map. */
  lemma TrackedAppend(edges: seq<Edge>, relaxed: seq<Edge>, more: seq<Edge>,
                      prevA: map<string, string>, prevB: map<string, string>)
    requires (forall e :: e in relaxed ==> e in edges && e.target in prevA) && prevA.Keys <= prevB.Keys
    requires forall e :: e in more ==> e in edges && e.target in prevB
    ensures forall e :: e in relaxed + more ==> e in edges && e.target in prevB
  {
  }

  /**
   * The bookkeeping of one step of a Bellman-Ford pass: the edges it has
   * relaxed keep a predecessor for their targets, and while it has relaxed
   * none the distances are those it started from, with no edge so far relaxable.
   */
  lemma PassStep(edges: seq<Edge>, i: nat, d1: map<string, Num>, dIn: map<string, Num>, d: map<string, Num>,
                 prev1: map<string, string>, prevIn: map<string, string>, prev: map<string, string>,
                 relaxedIn: seq<Edge>, lowered: bool)
    requires i < |edges| && prev1.Keys <= prevIn.Keys
    requires forall e :: e in relaxedIn ==> e in edges && e.target in prevIn
    requires relaxedIn == [] ==> dIn == d1 && Quiet(d1, edges[..i])
    requires lowered <==> Relaxable(dIn, edges[i])
    requires prev == if lowered then prevIn[edges[i].target := edges[i].source] else prevIn
    requires !lowered ==> d == dIn
    ensures prev1.Keys <= prev.Keys
    ensures var relaxed := if lowered then relaxedIn + [edges[i]] else relaxedIn;
      (forall e :: e in relaxed ==> e in edges && e.target in prev) &&
      (relaxed == [] ==> d == d1 && Quiet(d1, edges[..i + 1]))
  {
    if lowered {
      TrackedAppend(edges, relaxedIn, [edges[i]], prevIn, prev);
    } else {
      TrackedMono(edges, relaxedIn, prevIn, prev);
      if relaxedIn == [] {
        QuietStep(d1, edges, i);
      }
    }
  }

  /** The bookkeeping of one step of SPFA's inner loop, over the edges out of `cur`. */
  lemma OutStep(edges: seq<Edge>, cur: string, e: Edge, prev1: map<string, string>, prevIn: map<string, string>,
                prev: map<string, string>, relaxedIn: seq<Edge>, lowered: bool)
    requires e in edges && e.source == cur && prev1.Keys <= prevIn.Keys
    requires forall x :: x in relaxedIn ==> x in edges && x.source == cur && x.target in prevIn
    requires prev == if lowered then prevIn[e.target := cur] else prevIn
    ensures prev1.Keys <= prev.Keys
    ensures var relaxed := if lowered then relaxedIn + [e] else relaxedIn;
      forall x :: x in relaxed ==> x in edges && x.source == cur && x.target in prev
  {
  }

  /** Every edge of `relaxed` `Improves`. */
  predicate Improving(d0: map<string, Num>, d: map<string, Num>, prev: map<string, string>, relaxed: seq<Edge>) {
    forall e :: e in relaxed ==> Improves(d0, d, prev, e)
  }

  /**
   * A round of relaxations keeps `Improving` for the edges relaxed before it
   * and adds it for the edges it lowered: distances only fall from `d0` and
   * no predecessor is dropped.
   */
  lemma ImprovingRound(d0: map<string, Num>, d1: map<string, Num>, prev1: map<string, string>, before: seq<Edge>,
                       d: map<string, Num>, prev: map<string, string>, relaxed: seq<Edge>, cur: string)
    requires Improving(d0, d1, prev1, before) && NoHigher(d1, d0)
    requires NoHigher(d, d1) && prev1.Keys <= prev.Keys && Lowered(d1, d, prev, relaxed, cur)
    ensures Improving(d0, d, prev, before + relaxed)
  {
    forall e | e in before + relaxed
      ensures Improves(d0, d, prev, e)
    {
      var t := e.target;
      if e in before {
        assert t in d1;
        LeLess(d[t], d1[t], d0[t]);
      } else {
        assert t in d1;
        LessLe(d[t], d1[t], d0[t]);
      }
    }
  }

  /** Each distance that changed is the target of a relaxed edge. */
  predicate Explained(d0: map<string, Num>, d: map<string, Num>, relaxed: seq<Edge>) {
    forall k :: k in d && k in d0 && d[k] != d0[k] ==> exists e :: e in relaxed && e.target == k
  }

  /** Each predecessor is the one recorded before, or `cur`. */
  predicate PrevFrom(prev0: map<string, string>, prev: map<string, string>, cur: string) {
    forall k :: k in prev ==> (k in prev0 && prev[k] == prev0[k]) || prev[k] == cur
  }

  /** `cur` kept its distance, and nothing that changed fell below it. */
  predicate NotBelow(d0: map<string, Num>, d: map<string, Num>, cur: string)
    requires cur in d0 && cur in d
  {
    d[cur] == d0[cur] && forall k :: k in d && k in d0 && d[k] != d0[k] ==> Le(d0[cur], d[k])
  }

  /**
   * What relaxing some of `cur`'s outgoing edges, from `d0` and `prev0`, has
   * done so far: no distance rose, each relaxed edge lowered its target and
   * made `cur` its predecessor, each lowered distance is explained by a
   * relaxed edge, and with non-negative weights `cur` kept its distance and
   * nothing fell below it.
   */
  predicate Relaxing(edges: seq<Edge>, cur: string, d0: map<string, Num>, prev0: map<string, string>,
                     d: map<string, Num>, prev: map<string, string>, relaxed: seq<Edge>)
    requires cur in d0
  {
    NotNaN(d) && NoHigher(d, d0) && PrevSound(edges, prev) &&
    (forall e :: e in relaxed ==> e in edges) && Lowered(d0, d, prev, relaxed, cur) &&
    Explained(d0, d, relaxed) && PrevFrom(prev0, prev, cur) &&
    (NonNegative(edges) ==> NotBelow(d0, d, cur))
  }

  lemma RelaxLowers(d0: map<string, Num>, d: map<string, Num>, prev: map<string, string>, relaxed: seq<Edge>,
                    cur: string, e: Edge, alt: Num)
    requires NoHigher(d, d0) && Lowered(d0, d, prev, relaxed, cur)
    requires e.source == cur && Less(alt, Get(d, e.target))
    ensures Lowered(d0, d[e.target := alt], prev[e.target := cur], relaxed + [e], cur)
  {
    var d' := d[e.target := alt];
    forall f | f in relaxed + [e]
      ensures f.source == cur && Less(Get(d', f.target), Get(d0, f.target))
    {
      if f.target == e.target {
        assert Le(d[e.target], d0[e.target]);
      } else {
        assert f in relaxed;
      }
    }
  }

  lemma RelaxExplains(d0: map<string, Num>, d: map<string, Num>, relaxed: seq<Edge>, e: Edge, alt: Num)
    requires Explained(d0, d, relaxed)
    ensures Explained(d0, d[e.target := alt], relaxed + [e])
  {
    forall k | k in d[e.target := alt] && k in d0 && d[e.target := alt][k] != d0[k]
      ensures exists f :: f in relaxed + [e] && f.target == k
    {
      if k == e.target {
        assert e in relaxed + [e];
      } else {
        var f :| f in relaxed && f.target == k;
        assert f in relaxed + [e];
      }
    }
  }

  lemma RelaxNotBelow(d0: map<string, Num>, d: map<string, Num>, cur: string, e: Edge)
    requires cur in d0 && cur in d && NotBelow(d0, d, cur) && e.weight >= 0
    requires Less(Add(d[cur], e.weight), Get(d, e.target))
    ensures NotBelow(d0, d[e.target := Add(d[cur], e.weight)], cur)
  {
    assert e.target != cur;
  }

  /** A relaxation lowers one known distance to a number and records an edge into it. */
  lemma RelaxKeepsShape(edges: seq<Edge>, cur: string, d0: map<string, Num>, prev0: map<string, string>,
                        d: map<string, Num>, prev: map<string, string>, relaxed: seq<Edge>, e: Edge, alt: Num)
    requires NotNaN(d) && NoHigher(d, d0) && PrevSound(edges, prev) && PrevFrom(prev0, prev, cur)
    requires forall f :: f in relaxed ==> f in edges
    requires e in edges && e.source == cur && Less(alt, Get(d, e.target))
    ensures NotNaN(d[e.target := alt]) && NoHigher(d[e.target := alt], d0)
    ensures PrevSound(edges, prev[e.target := cur]) && PrevFrom(prev0, prev[e.target := cur], cur)
    ensures forall f :: f in relaxed + [e] ==> f in edges
  {
    assert e.target in d;
    LeTrans(alt, d[e.target], d0[e.target]) by {
      NotLessIsLe(d[e.target], alt);
    }
    FindEdgeIn(edges, e);
  }

  /** Lowering one distance leaves the map no higher than before. */
  lemma LowerOne(d: map<string, Num>, d0: map<string, Num>, t: string, alt: Num)
    requires NoHigher(d, d0) && Less(alt, Get(d, t))
    ensures NoHigher(d[t := alt], d)
  {
    NoHigherRefl(d, d0);
  }

  /** One successful relaxation of an outgoing edge of `cur` keeps `Relaxing`. */
  lemma RelaxOne(edges: seq<Edge>, cur: string, d0: map<string, Num>, prev0: map<string, string>,
                 d: map<string, Num>, prev: map<string, string>, relaxed: seq<Edge>, e: Edge)
    requires cur in d0 && NotNaN(d0) && Relaxing(edges, cur, d0, prev0, d, prev, relaxed)
    requires e in edges && e.source == cur
    requires Less(Add(d[cur], e.weight), Get(d, e.target))
    ensures Relaxing(edges, cur, d0, prev0, d[e.target := Add(d[cur], e.weight)], prev[e.target := cur], relaxed + [e])
  {
    var alt := Add(d[cur], e.weight);
    RelaxKeepsShape(edges, cur, d0, prev0, d, prev, relaxed, e, alt);
    RelaxLowers(d0, d, prev, relaxed, cur, e, alt);
    RelaxExplains(d0, d, relaxed, e, alt);
    if NonNegative(edges) {
      RelaxNotBelow(d0, d, cur, e);
    }
  }

  /**
   * One turn of Dijkstra's `forEach` over the outgoing edges of `cur`:
   * `alt = d.get(cur)! + weight`, and when `alt < d.get(target)!` the
   * target takes `alt` and `cur` as its predecessor.
   */
  method RelaxEdge(edges: seq<Edge>, cur: string, d0: map<string, Num>, prev0: map<string, string>,
                   d1: map<string, Num>, prev1: map<string, string>, relaxed1: seq<Edge>, e: Edge,
                   ghost src: set<string>, ghost wit1: map<string, Walk>)
    returns (d: map<string, Num>, prev: map<string, string>, relaxed: seq<Edge>, ghost wit: map<string, Walk>)
    requires NotNaN(d0) && cur in d0 && e in edges && e.source == cur
    requires Relaxing(edges, cur, d0, prev0, d1, prev1, relaxed1) && Witnessed(edges, src, d1, wit1)
    ensures Relaxing(edges, cur, d0, prev0, d, prev, relaxed) && Witnessed(edges, src, d, wit)
    ensures NoHigher(d, d1) && prev1.Keys <= prev.Keys
    ensures e.target in d0 ==> e.target in d && Le(d[e.target], Add(d0[cur], e.weight))
  {
    d, prev, relaxed, wit := d1, prev1, relaxed1, wit1;
    var alt := Add(d[cur], e.weight);
    LeAdd(d[cur], d0[cur], e.weight);
    if Less(alt, Get(d, e.target)) {
      WitnessedRelax(edges, src, d, wit, cur, e);
      RelaxOne(edges, cur, d0, prev0, d, prev, relaxed, e);
      LowerOne(d1, d0, e.target, alt);
      wit := wit[e.target := Walk(wit[cur].from, wit[cur].steps + [e])];
      d := d[e.target := alt];
      prev := prev[e.target := cur];
      relaxed := relaxed + [e];
    } else {
      NoHigherRefl(d1, d0);
      if e.target in d0 {
        NotLessIsLe(alt, d[e.target]);
        LeTrans(d[e.target], alt, Add(d0[cur], e.weight));
      }
    }
  }

  /** The edges of `out` into known nodes are relaxed with respect to `cur`'s starting distance. */
  predicate Settled(out: seq<Edge>, d0: map<string, Num>, d: map<string, Num>, cur: string)
    requires cur in d0
  {
    forall e :: e in out && e.target in d0 ==> e.target in d && Le(d[e.target], Add(d0[cur], e.weight))
  }

  lemma SettledStep(out: seq<Edge>, i: nat, d0: map<string, Num>, d1: map<string, Num>, d: map<string, Num>, cur: string)
    requires cur in d0 && i < |out| && Settled(out[..i], d0, d1, cur) && NoHigher(d, d1)
    requires out[i].target in d0 ==> out[i].target in d && Le(d[out[i].target], Add(d0[cur], out[i].weight))
    ensures Settled(out[..i + 1], d0, d, cur)
  {
    assert out[..i + 1] == out[..i] + [out[i]];
    forall f | f in out[..i] && f.target in d0 ensures Le(d[f.target], Add(d0[cur], f.weight)) {
      LeTrans(d[f.target], d1[f.target], Add(d0[cur], f.weight));
    }
  }

  /**
   * Dijkstra's `edges.filter(edge => edge.source === currentId).forEach(...)`:
   * each outgoing edge is relaxed in turn (see `Relaxing`), every outgoing
   * edge into a known node ends up relaxed, and the finite distances stay
   * witnessed by walks.
   */
  method RelaxOutgoing(edges: seq<Edge>, cur: string, d0: map<string, Num>, prev0: map<string, string>,
                       ghost src: set<string>, ghost wit0: map<string, Walk>)
    returns (d: map<string, Num>, prev: map<string, string>, relaxed: seq<Edge>, ghost wit: map<string, Walk>)
    requires NotNaN(d0) && cur in d0
    requires Witnessed(edges, src, d0, wit0) && PrevSound(edges, prev0)
    ensures Relaxing(edges, cur, d0, prev0, d, prev, relaxed) && prev0.Keys <= prev.Keys
    ensures Witnessed(edges, src, d, wit)
    ensures forall e :: e in edges && e.source == cur && e.target in d0 ==>
      Le(d[e.target], Add(d0[cur], e.weight))
  {
    var out := OutEdges(edges, cur);
    OutEdgesAre(edges, cur);
    d, prev, relaxed, wit := d0, prev0, [], wit0;
    var i := 0;
    while i < |out|
      invariant 0 <= i <= |out|
      invariant Relaxing(edges, cur, d0, prev0, d, prev, relaxed) && prev0.Keys <= prev.Keys
      invariant Witnessed(edges, src, d, wit)
      invariant Settled(out[..i], d0, d, cur)
    {
      assert out[i] in edges && out[i].source == cur;
      var d1 := d;
      d, prev, relaxed, wit := RelaxEdge(edges, cur, d0, prev0, d, prev, relaxed, out[i], src, wit);
      SettledStep(out, i, d0, d1, d, cur);
      i := i + 1;
    }
    assert out[..i] == out;
  }

  /**
   * The edges out of finished nodes are relaxed and finished nodes are no
   * farther than unfinished ones; selecting the nearest unfinished node
   * `cur` and relaxing its edges keeps that, with `cur` now finished.
   */
  lemma DijkstraStep(edges: seq<Edge>, K: set<string>, U: set<string>, d0: map<string, Num>, d: map<string, Num>, cur: string)
    requires DijkstraInv(edges, K, U, d0) && NonNegative(edges) && EdgesWithin(edges, K)
    requires U <= K && cur in U && forall x :: x in U ==> Le(Get(d0, cur), Get(d0, x))
    requires K <= d0.Keys && NotNaN(d0) && NotNaN(d) && NoHigher(d, d0) && NotBelow(d0, d, cur)
    requires forall e :: e in edges && e.source == cur && e.target in d0 ==> Le(d[e.target], Add(d0[cur], e.weight))
    ensures DijkstraInv(edges, K, U - {cur}, d)
  {
    // A node finished before `cur` keeps its distance: lowering it would put it below `cur`.
    forall u | u in K && u !in U ensures d[u] == d0[u] {
      assert Le(d0[u], d0[cur]);
      assert Le(d0[u], d[u]);
      LeAntisym(d[u], d0[u]);
    }
    forall e | e in edges && e.source in K && e.source !in U - {cur}
      ensures Le(Get(d, e.target), Add(Get(d, e.source), e.weight))
    {
      if e.source != cur {
        assert Le(Get(d0, e.target), Add(Get(d0, e.source), e.weight));
        if e.target in d {
          LeTrans(d[e.target], d0[e.target], Add(Get(d0, e.source), e.weight));
        }
      }
    }
    forall u, x | u in K && u !in U - {cur} && x in U - {cur} ensures Le(Get(d, u), Get(d, x)) {
      assert Le(d0[u], d0[cur]) by {
        if u != cur { assert Le(Get(d0, u), Get(d0, cur)); }
      }
      if d[x] == d0[x] {
        LeTrans(d0[u], d0[cur], d0[x]);
      } else {
        LeTrans(d0[u], d0[cur], d[x]);
      }
    }
  }

  /**
   * The negative-cycle test after Bellman-Ford's passes: some edge could
   * still be relaxed.  When none can, and every edge stays among the keys,
   * the distances are a relaxation fixpoint.
   */
  method FindRelaxable(edges: seq<Edge>, d: map<string, Num>) returns (found: bool)
    ensures found <==> exists e :: e in edges && Relaxable(d, e)
    ensures !found && NotNaN(d) && EdgesWithin(edges, d.Keys) ==> Triangle(edges, d)
  {
    var i := 0;
    while i < |edges|
      invariant 0 <= i <= |edges|
      invariant forall e :: e in edges[..i] ==> !Relaxable(d, e)
    {
      var e := edges[i];
      if Relaxable(d, e) {
        return true;
      }
      assert edges[..i + 1] == edges[..i] + [e];
      i := i + 1;
    }
    assert edges[..i] == edges;
    if NotNaN(d) && EdgesWithin(edges, d.Keys) {
      forall e | e in edges ensures Le(Get(d, e.target), Add(Get(d, e.source), e.weight)) {
        NotLessIsLe(Add(Get(d, e.source), e.weight), Get(d, e.target));
      }
    }
    return false;
  }

  /** `nodes.forEach(node => distances.set(node.id, node.number === start ? 0 : Infinity))`. */
  method Initialize(nodes: seq<Node>, start: int) returns (d: map<string, Num>)
    ensures d == InitDistances(nodes, start)
  {
    d := map[];
    var i := 0;
    while i < |nodes|
      invariant 0 <= i <= |nodes|
      invariant d == InitDistances(nodes[..i], start)
    {
      assert nodes[..i + 1][..i] == nodes[..i];
      d := d[nodes[i].id := if nodes[i].number == start then Fin(0) else Inf];
      i := i + 1;
    }
    assert nodes[..i] == nodes;
  }

  /** With unique ids, the initial distances are 0 at the start ids and `Infinity` elsewhere, with nothing to witness but empty walks. */
  lemma InitialState(edges: seq<Edge>, nodes: seq<Node>, start: int)
    requires NodeIdsUnique(nodes)
    ensures NotNaN(InitDistances(nodes, start))
    ensures SourcesBounded(InitDistances(nodes, start), StartIds(nodes, start))
    ensures Witnessed(edges, StartIds(nodes, start), InitDistances(nodes, start),
                      StartWalks(StartIds(nodes, start)))
  {
    var d := InitDistances(nodes, start);
    InitSources(nodes, start);
    assert (set k | k in d && d[k] == Fin(0)) == StartIds(nodes, start);
    WitnessedInit(edges, d);
  }

  /** Distances that never rose above their start keep the sources at 0 or below. */
  lemma SourcesStayBounded(d: map<string, Num>, d0: map<string, Num>, src: set<string>)
    requires NoHigher(d, d0) && SourcesBounded(d0, src)
    ensures SourcesBounded(d, src)
  {
    forall s | s in src ensures Le(Get(d, s), Fin(0)) {
      if s in d { LeTrans(d[s], d0[s], Fin(0)); }
    }
  }
  // ----- Dijkstra's rounds -----

  /**
   * The unvisited ids are the node ids `ids` not yet in the visit order, in
   * node order, and with the order they partition the id set `K`.
   */
  ghost predicate Visiting(ids: seq<string>, K: set<string>, unvisited: seq<string>, order: seq<string>) {
    NoDup(ids) && unvisited == Outside(ids, order) &&
    NoDup(unvisited) && (forall x :: x in unvisited ==> x in K) &&
    NoDup(order) && (forall x :: x in order <==> x in K && x !in unvisited)
  }

  /** Deleting the picked id from the unvisited ids and appending it to the order keeps `Visiting`. */
  lemma VisitingStep(ids: seq<string>, K: set<string>, unvisited: seq<string>, order: seq<string>, cur: string)
    requires Visiting(ids, K, unvisited, order) && cur in unvisited
    ensures Visiting(ids, K, Remove(unvisited, cur), order + [cur])
    ensures Elems(Remove(unvisited, cur)) == Elems(unvisited) - {cur}
  {
    OutsideRemove(ids, order, cur);
    RemoveElems(unvisited, cur);
  }

  /** `ids[i]` is strictly nearer than every later id of `ids` that is not in `order`. */
  predicate BeatsLaterOutside(ids: seq<string>, order: seq<string>, d: map<string, Num>, i: nat)
    requires i < |ids|
  {
    forall j :: i < j < |ids| && ids[j] !in order ==> Less(Get(d, ids[i]), Get(d, ids[j]))
  }

  /** An id that beats every later id beats every id of a suffix behind it. */
  lemma BeatsLaterTail(A: seq<string>, B: seq<string>, d: map<string, Num>, k: nat)
    requires k < |A| && BeatsLater(A + B, d, k)
    ensures forall y :: y in B ==> Less(Get(d, A[k]), Get(d, y))
  {
    forall y | y in B ensures Less(Get(d, A[k]), Get(d, y)) {
      var q :| 0 <= q < |B| && B[q] == y;
      assert (A + B)[|A| + q] == y && (A + B)[k] == A[k];
    }
  }

  /**
   * The tie rule in node order: the id `SelectMin` picks from the ids of
   * `ids` not in `order` is strictly nearer than every such id after it in `ids`.
   */
  lemma PickInNodeOrder(ids: seq<string>, order: seq<string>, dist: map<string, Num>)
    requires NoDup(ids) && Outside(ids, order) != []
    ensures exists i :: 0 <= i < |ids| && ids[i] == SelectMin(Outside(ids, order), dist) && BeatsLaterOutside(ids, order, dist, i)
  {
    var u := Outside(ids, order);
    var r := SelectMin(u, dist);
    var k :| 0 <= k < |u| && u[k] == r && BeatsLater(u, dist, k);
    OutsideElems(ids, order);
    var i :| 0 <= i < |ids| && ids[i] == r;
    OutsideSplit(ids, order, i);
    var A, B := Outside(ids[..i + 1], order), Outside(ids[i + 1..], order);
    assert A[k] == r;
    BeatsLaterTail(A, B, dist, k);
    assert BeatsLaterOutside(ids, order, dist, i);
  }

  /**
   * The state between two rounds of Dijkstra's main loop, over the node ids
   * `ids` (in node order, forming the set `K`) and the start ids `src`: the
   * unvisited ids are the ids not yet visited, in node order, and with the
   * visit order they partition `K`; distances only fell from `d0` and stay witnessed, every
   * predecessor has its edge, and with non-negative weights and no dangling
   * edge `DijkstraInv` holds.
   */
  ghost predicate DijkstraLoop(edges: seq<Edge>, ids: seq<string>, K: set<string>, src: set<string>, d0: map<string, Num>,
                               unvisited: seq<string>, dist: map<string, Num>, prev: map<string, string>,
                               order: seq<string>, wit: map<string, Walk>) {
    Visiting(ids, K, unvisited, order) &&
    NotNaN(dist) && NoHigher(dist, d0) && dist.Keys == K &&
    Witnessed(edges, src, dist, wit) && PrevSound(edges, prev) && SourcesBounded(dist, src) &&
    (NonNegative(edges) && EdgesWithin(edges, K) ==> DijkstraInv(edges, K, Elems(unvisited), dist))
  }

  /** Before the first round every live id is unvisited and the distances are the initial ones. */
  lemma DijkstraLoopInit(edges: seq<Edge>, nodes: seq<Node>, start: int)
    requires NodeIdsUnique(nodes)
    ensures DijkstraLoop(edges, NodeIds(nodes), NodeIdSet(nodes), StartIds(nodes, start), InitDistances(nodes, start),
                         Dedup(NodeIds(nodes)), InitDistances(nodes, start), map[], [],
                         StartWalks(StartIds(nodes, start)))
  {
    InitialState(edges, nodes, start);
    NodeIdsAreIdSet(nodes);
    NodeIdsNoDup(nodes);
    DedupNoDup(NodeIds(nodes));
    OutsideNothing(NodeIds(nodes));
  }

  /**
   * The id a round picks is unvisited, not yet in the order, and nearest
   * among the unvisited; every unvisited id after it in node order is
   * strictly farther.
   */
  lemma DijkstraPick(edges: seq<Edge>, ids: seq<string>, K: set<string>, src: set<string>, d0: map<string, Num>,
                     unvisited: seq<string>, dist: map<string, Num>, prev: map<string, string>,
                     order: seq<string>, wit: map<string, Walk>)
    requires DijkstraLoop(edges, ids, K, src, d0, unvisited, dist, prev, order, wit) && unvisited != []
    ensures SelectMin(unvisited, dist) in unvisited && SelectMin(unvisited, dist) !in order
    ensures forall x :: x in unvisited ==> Le(dist[SelectMin(unvisited, dist)], dist[x])
    ensures exists i :: 0 <= i < |ids| && ids[i] == SelectMin(unvisited, dist) && BeatsLaterOutside(ids, order, dist, i)
  {
    PickInNodeOrder(ids, order, dist);
  }

  /**
   * When the round picks the end node, with non-negative weights and no
   * dangling edge, its distance is the shortest distance from the start ids.
   */
  lemma DijkstraPicksShortest(edges: seq<Edge>, ids: seq<string>, K: set<string>, src: set<string>, d0: map<string, Num>,
                              unvisited: seq<string>, dist: map<string, Num>, prev: map<string, string>,
                              order: seq<string>, wit: map<string, Walk>)
    requires DijkstraLoop(edges, ids, K, src, d0, unvisited, dist, prev, order, wit) && unvisited != []
    requires NonNegative(edges) && EdgesWithin(edges, K)
    ensures IsShortest(edges, src, SelectMin(unvisited, dist), dist[SelectMin(unvisited, dist)])
  {
    var cur := SelectMin(unvisited, dist);
    DijkstraIsShortest(edges, K, Elems(unvisited), dist, src, wit, cur);
  }

  /**
   * A round that does not stop: relax the outgoing edges of the picked id
   * and delete it from the unvisited ids.  The loop state carries over, with
   * the picked id appended to the order.
   */
  method DijkstraRound(edges: seq<Edge>, ghost ids: seq<string>, ghost K: set<string>, ghost src: set<string>, ghost d0: map<string, Num>,
                       unvisited: seq<string>, dist: map<string, Num>, prev: map<string, string>,
                       ghost order: seq<string>, ghost wit: map<string, Walk>)
    returns (unvisited': seq<string>, dist': map<string, Num>, prev': map<string, string>,
             relaxed: seq<Edge>, ghost wit': map<string, Walk>)
    requires DijkstraLoop(edges, ids, K, src, d0, unvisited, dist, prev, order, wit) && unvisited != []
    ensures DijkstraLoop(edges, ids, K, src, d0, unvisited', dist', prev',
                         order + [SelectMin(unvisited, dist)], wit')
    ensures unvisited' == Remove(unvisited, SelectMin(unvisited, dist))
    ensures Relaxing(edges, SelectMin(unvisited, dist), dist, prev, dist', prev', relaxed) && prev.Keys <= prev'.Keys
  {
    var cur := SelectMin(unvisited, dist);
    DijkstraPick(edges, ids, K, src, d0, unvisited, dist, prev, order, wit);
    dist', prev', relaxed, wit' := RelaxOutgoing(edges, cur, dist, prev, src, wit);
    if NonNegative(edges) && EdgesWithin(edges, K) {
      DijkstraStep(edges, K, Elems(unvisited), dist, dist', cur);
    }
    unvisited' := Remove(unvisited, cur);
    VisitingStep(ids, K, unvisited, order, cur);
    SourcesStayBounded(dist', dist, src);
    forall k | k in d0 ensures Le(dist'[k], d0[k]) {
      LeTrans(dist'[k], dist[k], d0[k]);
    }
  }

  // ----- relaxation over all edges (Bellman-Ford and SPFA) -----

  /**
   * What Bellman-Ford and SPFA keep about their maps, from the initial
   * distances `d0`: no `NaN`, no distance above where it started, every
   * finite distance witnessed by a walk from a start id, every start id at
   * most 0, every predecessor joined to its node by an edge, and every id
   * with a predecessor strictly below its initial distance.
   */
  ghost predicate Sound(edges: seq<Edge>, src: set<string>, d0: map<string, Num>,
                        d: map<string, Num>, prev: map<string, string>, wit: map<string, Walk>) {
    NotNaN(d) && NoHigher(d, d0) && Witnessed(edges, src, d, wit) && PrevSound(edges, prev) && SourcesBounded(d, src) &&
    PrevLowered(d0, d, prev)
  }

  lemma SoundInit(edges: seq<Edge>, nodes: seq<Node>, start: int)
    requires NodeIdsUnique(nodes)
    ensures Sound(edges, StartIds(nodes, start), InitDistances(nodes, start), InitDistances(nodes, start), map[],
                  StartWalks(StartIds(nodes, start)))
  {
    InitialState(edges, nodes, start);
  }

  /** The walk that witnesses `e.target` once `e` has been relaxed. */
  ghost function Through(wit: map<string, Walk>, e: Edge): map<string, Walk>
    requires e.source in wit
  {
    wit[e.target := Walk(wit[e.source].from, wit[e.source].steps + [e])]
  }

  /**
   * `if (alt < distances.get(target)!) { distances.set(target, alt); previous.set(target, source) }`
   * with `alt = distances.get(source)! + weight` keeps the maps sound, and
   * lowers the target strictly.
   */
  lemma RelaxSound(edges: seq<Edge>, src: set<string>, d0: map<string, Num>,
                   d: map<string, Num>, prev: map<string, string>, wit: map<string, Walk>, e: Edge)
    requires Sound(edges, src, d0, d, prev, wit) && e in edges
    requires Relaxable(d, e)
    ensures e.source in d && e.source in wit && e.target in d
    ensures Sound(edges, src, d0, d[e.target := Add(d[e.source], e.weight)], prev[e.target := e.source], Through(wit, e))
  {
    var alt := Add(d[e.source], e.weight);
    WitnessedRelax(edges, src, d, wit, e.source, e);
    FindEdgeIn(edges, e);
    var d' := d[e.target := alt];
    LowerOne(d, d0, e.target, alt);
    NoHigherTrans(d', d, d0);
    SourcesStayBounded(d', d, src);
    PrevLoweredRelax(d0, d, prev, e.target, alt, e.source);
  }

  /**
   * One turn of Bellman-Ford's pass: `alt = distances.get(source)! + weight`,
   * and when `alt < distances.get(target)!` the target takes `alt` and
   * `source` as its predecessor.
   */
  method BellmanFordEdge(edges: seq<Edge>, e: Edge, d: map<string, Num>, prev: map<string, string>,
                         ghost src: set<string>, ghost d0: map<string, Num>, ghost wit: map<string, Walk>)
    returns (d': map<string, Num>, prev': map<string, string>, relaxed: bool, ghost wit': map<string, Walk>)
    requires e in edges && Sound(edges, src, d0, d, prev, wit)
    ensures Sound(edges, src, d0, d', prev', wit') && NoHigher(d', d)
    ensures relaxed <==> Relaxable(d, e)
    ensures relaxed ==> d' == d[e.target := Add(d[e.source], e.weight)] && prev' == prev[e.target := e.source]
    ensures !relaxed ==> d' == d && prev' == prev
  {
    var alt := Add(Get(d, e.source), e.weight);
    relaxed := Less(alt, Get(d, e.target));
    if relaxed {
      RelaxSound(edges, src, d0, d, prev, wit, e);
      d', prev', wit' := d[e.target := alt], prev[e.target := e.source], Through(wit, e);
      assert NoHigher(d', d);
    } else {
      d', prev', wit' := d, prev, wit;
    }
  }

  /** A relaxation no edge allows any more leaves the triangle inequality everywhere. */
  lemma NoneRelaxable(edges: seq<Edge>, d: map<string, Num>)
    requires NotNaN(d) && EdgesWithin(edges, d.Keys)
    requires forall e :: e in edges ==> !Relaxable(d, e)
    ensures Triangle(edges, d)
  {
    forall e | e in edges ensures Le(Get(d, e.target), Add(Get(d, e.source), e.weight)) {
      NotLessIsLe(Add(Get(d, e.source), e.weight), Get(d, e.target));
    }
  }

  /** Once the triangle inequality holds, no cycle through a node reached from a start id weighs less than 0. */
  lemma FixpointNoNegativeCycle(edges: seq<Edge>, src: set<string>, d: map<string, Num>,
                                s: string, p: seq<Edge>, t: string, c: seq<Edge>)
    requires Triangle(edges, d) && SourcesBounded(d, src)
    requires s in src && IsPath(edges, p, s, t) && IsPath(edges, c, t, t)
    ensures Weight(c) >= 0
  {
    FixpointLowerBound(edges, d, p, s, t);
    FixpointLowerBound(edges, d, c, t, t);
  }

  /** Every id whose distance is known ends at its shortest distance once the triangle inequality holds. */
  lemma AllShortest(edges: seq<Edge>, src: set<string>, d0: map<string, Num>,
                    d: map<string, Num>, prev: map<string, string>, wit: map<string, Walk>)
    requires Sound(edges, src, d0, d, prev, wit) && Triangle(edges, d)
    ensures forall t :: t in d ==> IsShortest(edges, src, t, d[t])
  {
    forall t | t in d ensures IsShortest(edges, src, t, d[t]) {
      FixpointIsShortest(edges, src, d, wit, t);
    }
  }

  lemma NoHigherTrans(a: map<string, Num>, b: map<string, Num>, c: map<string, Num>)
    requires NoHigher(a, b) && NoHigher(b, c)
    ensures NoHigher(a, c)
  {
    forall k | k in c ensures Le(a[k], c[k]) {
      LeTrans(a[k], b[k], c[k]);
    }
  }

  /** `for (let i = 0; i < V - 1; i++)`: the number of passes Bellman-Ford makes over `V` nodes. */
  function PassCount(V: int): (r: nat)
    ensures V >= 1 ==> r == V - 1
    ensures V < 1 ==> r == 0
  {
    if V > 1 then V - 1 else 0
  }

  /** Taking the head of the queue leaves its outgoing edges as the only pending ones it accounted for. */
  lemma SpfaDequeue(edges: seq<Edge>, d: map<string, Num>, queue: seq<string>, inQueue: set<string>)
    requires QueueOk(d, queue, inQueue) && Pending(edges, d, queue, []) && queue != []
    ensures queue[0] in d
    ensures QueueOk(d, queue[1..], inQueue - {queue[0]})
    ensures Pending(edges, d, queue[1..], OutEdges(edges, queue[0]))
  {
    OutEdgesAre(edges, queue[0]);
    assert queue == [queue[0]] + queue[1..];
    assert Elems(queue[1..]) == Elems(queue) - {queue[0]} by {
      forall j | 1 <= j < |queue| ensures queue[j] != queue[0] { }
    }
  }

  /** An empty queue with nothing pending and no dangling edge is the fixpoint. */
  lemma PendingDone(edges: seq<Edge>, d: map<string, Num>)
    requires Pending(edges, d, [], []) && EdgesWithin(edges, d.Keys)
    ensures Triangle(edges, d)
  {
  }

  // ----- SPFA's queue -----

  /** `inQueue` is exactly the set of queued ids, the queue holds no id twice, and every queued id is known. */
  predicate QueueOk(d: map<string, Num>, queue: seq<string>, inQueue: set<string>) {
    NoDup(queue) && inQueue == Elems(queue) && forall x :: x in queue ==> x in d
  }

  /**
   * Every edge between known ids already satisfies the triangle inequality,
   * or leaves a queued id, or is one of `rest`, the outgoing edges still to
   * be relaxed.  With an empty queue and nothing left, this is the fixpoint.
   */
  predicate Pending(edges: seq<Edge>, d: map<string, Num>, queue: seq<string>, rest: seq<Edge>) {
    forall e :: e in edges && e.source in d && e.target in d ==>
      e.source in queue || e in rest || Le(d[e.target], Add(d[e.source], e.weight))
  }

  /** The start ids, in node order: the queue SPFA's `nodes.forEach` builds. */
  function StartQueue(nodes: seq<Node>, start: int): (q: seq<string>)
    ensures forall x :: x in q <==> x in StartIds(nodes, start)
  {
    if nodes == [] then []
    else
      var init := nodes[..|nodes| - 1];
      var last := nodes[|nodes| - 1];
      assert nodes == init + [last];
      assert StartIds(nodes, start) == StartIds(init, start) + (if last.number == start then {last.id} else {});
      StartQueue(init, start) + (if last.number == start then [last.id] else [])
  }

  /** With unique node ids, no id is queued twice. */
  lemma {:induction false} StartQueueNoDup(nodes: seq<Node>, start: int)
    requires NodeIdsUnique(nodes)
    ensures NoDup(StartQueue(nodes, start))
  {
    if nodes != [] {
      var init := nodes[..|nodes| - 1];
      var last := nodes[|nodes| - 1];
      assert NodeIdsUnique(init) by {
        forall i, j | 0 <= i < j < |init| ensures init[i].id != init[j].id {
          assert init[i] == nodes[i] && init[j] == nodes[j];
        }
      }
      StartQueueNoDup(init, start);
      if last.number == start {
        forall n | n in init ensures n.id != last.id {
          var i :| 0 <= i < |init| && init[i] == n;
          assert nodes[i] == n;
        }
        assert last.id !in StartQueue(init, start);
      }
    }
  }

  /**
   * `nodes.forEach(...)` in SPFA: every node gets its initial distance, and
   * the nodes carrying the start number are queued.
   */
  method SpfaInitialize(nodes: seq<Node>, start: int) returns (d: map<string, Num>, queue: seq<string>, inQueue: set<string>)
    ensures d == InitDistances(nodes, start) && queue == StartQueue(nodes, start) && inQueue == Elems(queue)
  {
    d, queue, inQueue := map[], [], {};
    var i := 0;
    while i < |nodes|
      invariant 0 <= i <= |nodes|
      invariant d == InitDistances(nodes[..i], start) && queue == StartQueue(nodes[..i], start)
      invariant inQueue == Elems(queue)
    {
      assert nodes[..i + 1][..i] == nodes[..i];
      var isStart := nodes[i].number == start;
      d := d[nodes[i].id := if isStart then Fin(0) else Inf];
      if isStart {
        queue := queue + [nodes[i].id];
        inQueue := inQueue + {nodes[i].id};
      }
      i := i + 1;
    }
    assert nodes[..i] == nodes;
  }

  /** The first queue is sound and nothing is pending but the start ids. */
  lemma SpfaInit(edges: seq<Edge>, nodes: seq<Node>, start: int)
    requires NodeIdsUnique(nodes)
    ensures QueueOk(InitDistances(nodes, start), StartQueue(nodes, start), Elems(StartQueue(nodes, start)))
    ensures Pending(edges, InitDistances(nodes, start), StartQueue(nodes, start), [])
  {
    var d := InitDistances(nodes, start);
    InitSources(nodes, start);
    StartQueueNoDup(nodes, start);
    forall e | e in edges && e.source in d && e.target in d && e.source !in StartQueue(nodes, start)
      ensures Le(d[e.target], Add(d[e.source], e.weight))
    {
    }
  }

  /**
   * One turn of SPFA's inner loop over the outgoing edges of `cur`: relax
   * `e`, and when it lowered its target, queue the target unless it is
   * already queued.
   */
  method SpfaEdge(edges: seq<Edge>, cur: string, e: Edge, rest: seq<Edge>,
                  d: map<string, Num>, prev: map<string, string>, queue: seq<string>, inQueue: set<string>,
                  ghost src: set<string>, ghost d0: map<string, Num>, ghost wit: map<string, Walk>)
    returns (d': map<string, Num>, prev': map<string, string>, queue': seq<string>, inQueue': set<string>,
             relaxed: bool, ghost wit': map<string, Walk>)
    requires e in edges && e.source == cur
    requires Sound(edges, src, d0, d, prev, wit) && QueueOk(d, queue, inQueue)
    requires Pending(edges, d, queue, [e] + rest)
    ensures Sound(edges, src, d0, d', prev', wit') && QueueOk(d', queue', inQueue')
    ensures Pending(edges, d', queue', rest)
    ensures NoHigher(d', d)
    ensures relaxed <==> Relaxable(d, e)
    ensures relaxed ==> d' == d[e.target := Add(d[cur], e.weight)] && prev' == prev[e.target := cur] &&
                        queue' == (if e.target in inQueue then queue else queue + [e.target])
    ensures !relaxed ==> d' == d && prev' == prev && queue' == queue
  {
    var alt := Add(Get(d, cur), e.weight);
    relaxed := Less(alt, Get(d, e.target));
    if !relaxed {
      d', prev', queue', inQueue', wit' := d, prev, queue, inQueue, wit;
      if e.source in d && e.target in d {
        NotLessIsLe(alt, d[e.target]);
      }
      return;
    }
    RelaxSound(edges, src, d0, d, prev, wit, e);
    var t := e.target;
    d', prev', wit' := d[t := alt], prev[t := cur], Through(wit, e);
    if t in inQueue {
      queue', inQueue' := queue, inQueue;
    } else {
      queue', inQueue' := queue + [t], inQueue + {t};
      assert NoDup(queue');
      assert Elems(queue') == Elems(queue) + {t};
    }
    assert NoHigher(d', d);
    forall g | g in edges && g.source in d' && g.target in d' && g.source !in queue' && g !in rest
      ensures Le(d'[g.target], Add(d'[g.source], g.weight))
    {
      assert g.source != t;
      if g.target == t {
        if g != e {
          LeTrans(d'[t], d[t], Add(d[g.source], g.weight));
        }
      }
    }
  }

  // ----- the path display -----

  /**
   * `chain` is the walk back along `previous` from `end`, as far as the
   * display loop got: it starts at `end`, each id is the predecessor of the
   * one before, every id has a predecessor and is truthy, and no id repeats.
   * It is empty exactly when `end` has no predecessor.
   */
  predicate PrevChain(prev: map<string, string>, end: Option<string>, chain: seq<string>) {
    (chain == [] <==> !(Truthy(end) && end.value in prev)) &&
    (chain != [] ==> end == Some(chain[0])) &&
    (forall i :: 0 <= i < |chain| ==> chain[i] in prev && chain[i] != "") &&
    (forall i :: 0 <= i < |chain| - 1 ==> chain[i + 1] == prev[chain[i]]) &&
    NoDup(chain)
  }

  /** The walk stopped because the last predecessor has no predecessor of its own (or is the empty id). */
  predicate ChainStops(prev: map<string, string>, chain: seq<string>)
    requires forall i :: 0 <= i < |chain| ==> chain[i] in prev
  {
    chain != [] ==> (prev[chain[|chain| - 1]] == "" || prev[chain[|chain| - 1]] !in prev)
  }

  /** The walk came back to an id it had passed, so the display loop goes round for ever. */
  predicate ChainLoops(prev: map<string, string>, chain: seq<string>)
    requires forall i :: 0 <= i < |chain| ==> chain[i] in prev
  {
    chain != [] && prev[chain[|chain| - 1]] in chain
  }

  /** The ids of the walk that the display highlights: those whose edge from their predecessor is found. */
  function PathNodes(edges: seq<Edge>, prev: map<string, string>, chain: seq<string>): set<string> {
    set c | c in chain && c in prev && FindEdge(edges, prev[c], c).Some?
  }

  /** The ids of the edges the display highlights, one per highlighted node. */
  function PathEdgeIds(edges: seq<Edge>, prev: map<string, string>, chain: seq<string>): set<string> {
    set c | c in chain && c in prev && FindEdge(edges, prev[c], c).Some? :: FindEdge(edges, prev[c], c).value.id
  }

  /** Extending the walk by `c` highlights `c` and its edge exactly when that edge is found. */
  lemma ShownExtend(edges: seq<Edge>, prev: map<string, string>, chain: seq<string>, c: string)
    requires c in prev
    ensures PathNodes(edges, prev, chain + [c]) ==
      PathNodes(edges, prev, chain) + (if FindEdge(edges, prev[c], c).Some? then {c} else {})
    ensures PathEdgeIds(edges, prev, chain + [c]) ==
      PathEdgeIds(edges, prev, chain) + (if FindEdge(edges, prev[c], c).Some? then {FindEdge(edges, prev[c], c).value.id} else {})
  {
    assert forall x :: x in chain + [c] <==> x in chain || x == c;
  }

  /**
   * The display loop's walk so far: `chain` as in `PrevChain` but possibly
   * unfinished, with `cur` the id it looks at next.
   */
  predicate Walking(prev: map<string, string>, end: Option<string>, chain: seq<string>, cur: Option<string>) {
    (forall i :: 0 <= i < |chain| ==> chain[i] in prev && chain[i] != "") &&
    (chain == [] ==> cur == end) &&
    (chain != [] ==> end == Some(chain[0]) && cur == Some(prev[chain[|chain| - 1]])) &&
    (forall i :: 0 <= i < |chain| - 1 ==> chain[i + 1] == prev[chain[i]]) &&
    NoDup(chain)
  }

  /** Passing the truthy id `cur`, which has a predecessor and was not passed before, keeps `Walking`. */
  lemma WalkStep(prev: map<string, string>, end: Option<string>, chain: seq<string>, cur: Option<string>)
    requires Walking(prev, end, chain, cur) && Truthy(cur) && cur.value in prev && cur.value !in chain
    ensures Walking(prev, end, chain + [cur.value], Some(prev[cur.value]))
  {
    var c := chain + [cur.value];
    forall i, j | 0 <= i < j < |c| ensures c[i] != c[j] {
      if j == |chain| {
        assert c[i] in chain;
      }
    }
  }

  /** A walk that can go no further is a finished `PrevChain` that stops. */
  lemma WalkDone(prev: map<string, string>, end: Option<string>, chain: seq<string>, cur: Option<string>)
    requires Walking(prev, end, chain, cur) && !(Truthy(cur) && cur.value in prev)
    ensures PrevChain(prev, end, chain) && ChainStops(prev, chain)
  {
  }

  /** A walk that reaches an id it passed is a `PrevChain` that loops. */
  lemma WalkRepeats(prev: map<string, string>, end: Option<string>, chain: seq<string>, cur: Option<string>)
    requires Walking(prev, end, chain, cur) && Truthy(cur) && cur.value in prev && cur.value in chain
    ensures PrevChain(prev, end, chain) && ChainLoops(prev, chain)
  {
  }

  /** `nodes.find(n => n.number === num)?.id`. */
  function NodeIdOf(nodes: seq<Node>, num: int): (r: Option<string>)
    ensures r.Some? <==> exists n :: n in nodes && n.number == num
    ensures r.Some? ==> exists n :: n in nodes && n.number == num && n.id == r.value
  {
    match FindNodeByNumber(nodes, num)
    case None =>
      assert forall n :: n in nodes ==> n.number != num by {
        forall n | n in nodes ensures n.number != num {
          var i :| 0 <= i < |nodes| && nodes[i] == n;
        }
      }
      None
    case Some(n) => Some(n.id)
  }
}
