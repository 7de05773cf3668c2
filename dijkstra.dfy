/**
  Single-source Dijkstra as networkx runs it for `single_source_dijkstra_path_length` and
  `single_source_dijkstra_path` (`generate_frames_dijkstra_from_matrix` in
  `elements/pl-graph-animate/graph-animate.py`).

  networkx keeps a heap of (tentative distance, push counter, node) entries, a map `seen` of
  tentative distances, a map `dist` of final distances (filled in the order nodes are
  finalised, which is the iteration order of the returned dict) and a map `paths`; when an
  edge (v,u) strictly improves `seen[u]` it pushes u with the next counter value and sets
  paths[u] := paths[v] + [u]. Here the heap is replaced by `SelectMin`, which picks the
  non-finalised seen node with the least (seen, counter of its latest push): the entry the
  heap would pop next, since every older entry of a node carries a larger distance and
  entries of finalised nodes are skipped.
*/
module ShortestPaths {
  import opened Wrappers
  import opened Graphs

  /** The finalisation order, the final distances and the path recorded for each node. */
  datatype Run = Run(order: seq<Node>, dist: map<Node, int>, paths: map<Node, seq<Node>>)

  /** No walk from s to v weighs less than d. */
  ghost predicate Lightest(g: Graph, s: Node, v: Node, d: int) {
    forall p :: IsWalkBetween(g, p, s, v) ==> WalkWeight(g, p) >= d
  }

  /**
    The order in which nodes are finalised: s first, no node twice, exactly the nodes with a
    final distance, and distances never decrease along it.
  */
  ghost predicate Ordered(s: Node, order: seq<Node>, dist: map<Node, int>) {
    Distinct(order) && Nodes(order) == dist.Keys && (order != [] ==> order[0] == s) &&
    forall i, j :: 0 <= i < j < |order| ==> dist[order[i]] <= dist[order[j]]
  }

  /**
    What a run from s delivers: every node reachable from s exactly once, s first, in
    non-decreasing distance; each node's path is a walk from s to it whose weight is its
    distance, and no walk from s to it is lighter.
  */
  ghost predicate IsShortestPathRun(g: Graph, s: Node, r: Run) {
    |r.order| >= 1 && Ordered(s, r.order, r.dist) && Nodes(r.order) == ReachableSet(g, s) &&
    r.paths.Keys == r.dist.Keys &&
    forall v {:trigger ShortestIn(g, s, r, v)} :: v in r.dist ==> ShortestIn(g, s, r, v)
  }

  /** The run's path to v is a walk from s to v weighing dist[v], and no walk is lighter. */
  ghost predicate ShortestIn(g: Graph, s: Node, r: Run, v: Node) {
    v in r.dist && v in r.paths &&
    IsWalkBetween(g, r.paths[v], s, v) && WalkWeight(g, r.paths[v]) == r.dist[v] &&
    Lightest(g, s, v, r.dist[v])
  }

  // ---------------------------------------------------------------- properties of a run

  /** The distances of a run are determined by the graph: any two runs agree on them. */
  lemma RunDistUnique(g: Graph, s: Node, r1: Run, r2: Run)
    requires IsShortestPathRun(g, s, r1) && IsShortestPathRun(g, s, r2)
    ensures r1.dist == r2.dist
  {
    assert r1.dist.Keys == r2.dist.Keys;
    forall v | v in r1.dist ensures r1.dist[v] == r2.dist[v] {
      assert ShortestIn(g, s, r1, v) && ShortestIn(g, s, r2, v);
    }
  }

  /**
    The start node is finalised first at distance 0, and a run has one entry per node
    reachable from the start.
  */
  lemma RunStart(g: Graph, s: Node, r: Run)
    requires NonNegative(g) && IsShortestPathRun(g, s, r)
    ensures s in r.dist && r.dist[s] == 0
    ensures |r.order| == |ReachableSet(g, s)|
    ensures forall v :: v in r.dist ==> r.dist[v] >= 0
  {
    assert r.order[0] in Nodes(r.order);
    assert IsWalkBetween(g, [s], s, s);
    assert ShortestIn(g, s, r, s);
    WalkWeightNonNegative(g, r.paths[s]);
    forall v | v in r.dist ensures r.dist[v] >= 0 {
      assert ShortestIn(g, s, r, v);
      WalkWeightNonNegative(g, r.paths[v]);
    }
    DistinctCard(r.order);
  }

  // ---------------------------------------------------------------- the selection rule

  /** v's live heap entry (seen[v], stamp[v]) comes no later than w's. */
  predicate Before(seen: map<Node, int>, stamp: map<Node, nat>, v: Node, w: Node)
    requires v in seen && w in seen && v in stamp && w in stamp
  {
    seen[v] < seen[w] || (seen[v] == seen[w] && stamp[v] <= stamp[w])
  }

  /** The next node to finalise: the least (seen, stamp) among seen nodes not yet in dist. */
  method SelectMin(n: nat, seen: map<Node, int>, stamp: map<Node, nat>, dist: map<Node, int>) returns (r: Option<Node>)
    requires stamp.Keys == seen.Keys && forall w :: w in seen ==> w < n
    ensures r.None? <==> forall w :: w in seen ==> w in dist
    ensures r.Some? ==> r.value in seen && r.value !in dist
    ensures r.Some? ==> forall w :: w in seen && w !in dist ==> Before(seen, stamp, r.value, w)
  {
    r := None;
    var i := 0;
    while i < n
      invariant i <= n
      invariant r.None? <==> forall w :: w in seen && w < i ==> w in dist
      invariant r.Some? ==> r.value < i && r.value in seen && r.value !in dist
      invariant r.Some? ==> forall w :: w in seen && w !in dist && w < i ==> Before(seen, stamp, r.value, w)
    {
      if i in seen && i !in dist {
        if r.None? || !Before(seen, stamp, r.value, i) {
          r := Some(i);
        }
      }
      i := i + 1;
    }
  }

  // ---------------------------------------------------------------- loop invariants

  /** paths[w] is a walk from s to w whose weight is the tentative distance seen[w]. */
  ghost predicate Recorded(g: Graph, s: Node, seen: map<Node, int>, paths: map<Node, seq<Node>>, w: Node) {
    w in seen && w in paths && IsWalkBetween(g, paths[w], s, w) && WalkWeight(g, paths[w]) == seen[w]
  }

  /** The finalised node v keeps its tentative distance, and no walk from s to v is lighter. */
  ghost predicate Optimal(g: Graph, s: Node, dist: map<Node, int>, seen: map<Node, int>, v: Node) {
    v in dist && v in seen && dist[v] == seen[v] && Lightest(g, s, v, dist[v])
  }

  /** Which nodes have a tentative distance, a recorded path and a final distance. */
  ghost predicate Shape(g: Graph, s: Node, dist: map<Node, int>, seen: map<Node, int>, paths: map<Node, seq<Node>>) {
    dist.Keys <= seen.Keys && paths.Keys == seen.Keys && s in seen &&
    (forall w :: w in seen ==> w < g.Size()) &&
    (dist.Keys == {} ==> seen.Keys == {s} && seen[s] == 0) &&
    (dist.Keys != {} ==> s in dist)
  }

  ghost predicate AllRecorded(g: Graph, s: Node, seen: map<Node, int>, paths: map<Node, seq<Node>>) {
    forall w {:trigger Recorded(g, s, seen, paths, w)} :: w in seen ==> Recorded(g, s, seen, paths, w)
  }

  ghost predicate AllOptimal(g: Graph, s: Node, dist: map<Node, int>, seen: map<Node, int>) {
    forall v {:trigger Optimal(g, s, dist, seen, v)} :: v in dist ==> Optimal(g, s, dist, seen, v)
  }

  /** top is at least every final distance and at most every other tentative distance. */
  ghost predicate Separated(dist: map<Node, int>, seen: map<Node, int>, top: int) {
    (forall u :: u in dist ==> dist[u] <= top) &&
    (forall w :: w in seen && w !in dist ==> top <= seen[w])
  }

  /**
    Facts that hold throughout the search; top is the distance of the node finalised last
    (0 before the first).
  */
  ghost predicate Frontier(g: Graph, s: Node, dist: map<Node, int>, seen: map<Node, int>,
                           paths: map<Node, seq<Node>>, top: int) {
    Shape(g, s, dist, seen, paths) && AllRecorded(g, s, seen, paths) &&
    AllOptimal(g, s, dist, seen) && Separated(dist, seen, top)
  }

  /** Every out-edge of the finalised node u has been relaxed. */
  ghost predicate RelaxedAll(g: Graph, dist: map<Node, int>, seen: map<Node, int>, u: Node) {
    u in dist &&
    forall w {:trigger HasEdge(g, u, w)} :: HasEdge(g, u, w) ==> w in seen && seen[w] <= dist[u] + Weight(g, u, w)
  }

  /** The first k neighbours of v have been relaxed. */
  ghost predicate RelaxedPrefix(g: Graph, dist: map<Node, int>, seen: map<Node, int>, v: Node, k: nat) {
    v in dist && k <= |Neighbors(g, v)| &&
    forall m :: 0 <= m < k ==>
      Neighbors(g, v)[m] in seen && seen[Neighbors(g, v)[m]] <= dist[v] + Weight(g, v, Neighbors(g, v)[m])
  }

  /** Every finalised node other than v is fully relaxed. */
  ghost predicate RelaxedBut(g: Graph, dist: map<Node, int>, seen: map<Node, int>, v: Node) {
    forall u {:trigger RelaxedAll(g, dist, seen, u)} :: u in dist && u != v ==> RelaxedAll(g, dist, seen, u)
  }

  /** Between two finalisations: every finalised node is fully relaxed. */
  ghost predicate Settled(g: Graph, s: Node, dist: map<Node, int>, seen: map<Node, int>,
                          paths: map<Node, seq<Node>>, top: int) {
    Frontier(g, s, dist, seen, paths, top) &&
    forall u {:trigger RelaxedAll(g, dist, seen, u)} :: u in dist ==> RelaxedAll(g, dist, seen, u)
  }

  /** While relaxing the out-edges of the node v just finalised (the first k are done). */
  ghost predicate Relaxing(g: Graph, s: Node, dist: map<Node, int>, seen: map<Node, int>,
                           paths: map<Node, seq<Node>>, top: int, v: Node, k: nat) {
    Frontier(g, s, dist, seen, paths, top) && v in dist && dist[v] == top &&
    RelaxedBut(g, dist, seen, v) && RelaxedPrefix(g, dist, seen, v, k)
  }

  // ---------------------------------------------------------------- step lemmas

  lemma Start(g: Graph, s: Node)
    requires s < g.Size()
    ensures Settled(g, s, map[], map[s := 0], map[s := [s]], 0)
  {
    assert IsWalkBetween(g, [s], s, s);
    assert Recorded(g, s, map[s := 0], map[s := [s]], s);
  }

  /** The first index at which a walk from inside D leaves D. */
  lemma ExitPoint(p: seq<Node>, D: set<Node>) returns (i: nat)
    requires |p| >= 1 && p[0] in D && p[|p| - 1] !in D
    ensures 0 < i < |p| && p[i - 1] in D && p[i] !in D
  {
    i := 0;
    while p[i] in D
      invariant 0 <= i < |p|
      invariant i > 0 ==> p[i - 1] in D
      decreases |p| - i
    {
      i := i + 1;
    }
  }

  /**
    The node selected next is at its shortest distance: any walk from s to it leaves the
    finalised set through some edge (y,x); that prefix already weighs at least seen[x],
    which is no less than seen[v], and the rest of the walk adds nothing negative.
  */
  lemma SelectedIsLightest(g: Graph, s: Node, dist: map<Node, int>, seen: map<Node, int>,
                           paths: map<Node, seq<Node>>, top: int, v: Node)
    requires NonNegative(g) && Settled(g, s, dist, seen, paths, top)
    requires v in seen && v !in dist && forall w :: w in seen && w !in dist ==> seen[v] <= seen[w]
    ensures Lightest(g, s, v, seen[v])
  {
    forall p | IsWalkBetween(g, p, s, v) ensures WalkWeight(g, p) >= seen[v] {
      if dist.Keys == {} {
        assert v == s;
        WalkWeightNonNegative(g, p);
      } else {
        var i := ExitPoint(p, dist.Keys);
        var y, x := p[i - 1], p[i];
        WalkPrefix(g, p, i);
        assert HasEdge(g, y, x);
        assert RelaxedAll(g, dist, seen, y);
        assert Optimal(g, s, dist, seen, y);
        assert p[..i + 1][..i] == p[..i];
        assert WalkWeight(g, p[..i + 1]) == WalkWeight(g, p[..i]) + Weight(g, y, x);
        WalkPrefixWeight(g, p, i + 1);
      }
    }
  }

  /** Finalising the selected node v at distance seen[v]. */
  lemma Finalise(g: Graph, s: Node, dist: map<Node, int>, seen: map<Node, int>,
                 paths: map<Node, seq<Node>>, top: int, v: Node)
    requires NonNegative(g) && Settled(g, s, dist, seen, paths, top)
    requires v in seen && v !in dist && forall w :: w in seen && w !in dist ==> seen[v] <= seen[w]
    ensures Relaxing(g, s, dist[v := seen[v]], seen, paths, seen[v], v, 0)
  {
    SelectedIsLightest(g, s, dist, seen, paths, top, v);
    var dist' := dist[v := seen[v]];
    forall u | u in dist' ensures Optimal(g, s, dist', seen, u) {
      if u != v {
        assert Optimal(g, s, dist, seen, u);
      }
    }
    forall u | u in dist' && u != v ensures RelaxedAll(g, dist', seen, u) {
      assert RelaxedAll(g, dist, seen, u);
    }
    assert AllOptimal(g, s, dist', seen) && RelaxedBut(g, dist', seen, v);
    assert Shape(g, s, dist', seen, paths);
    assert Separated(dist', seen, seen[v]);
  }

  /** seen' only adds tentative distances or lowers them. */
  ghost predicate Lowered(seen: map<Node, int>, seen': map<Node, int>) {
    seen.Keys <= seen'.Keys && forall w :: w in seen ==> seen'[w] <= seen[w]
  }

  /** Lowering tentative distances keeps every relaxed edge relaxed. */
  lemma LoweredRelaxed(g: Graph, dist: map<Node, int>, seen: map<Node, int>, seen': map<Node, int>, v: Node, k: nat)
    requires Lowered(seen, seen') && RelaxedBut(g, dist, seen, v) && RelaxedPrefix(g, dist, seen, v, k)
    ensures RelaxedBut(g, dist, seen', v) && RelaxedPrefix(g, dist, seen', v, k)
  {
    forall x | x in dist && x != v ensures RelaxedAll(g, dist, seen', x) {
      assert RelaxedAll(g, dist, seen, x);
    }
  }

  /** The k-th neighbour u of v is relaxed once seen[u] is no more than the walk through v. */
  lemma PrefixStep(g: Graph, dist: map<Node, int>, seen: map<Node, int>, v: Node, k: nat)
    requires RelaxedPrefix(g, dist, seen, v, k) && k < |Neighbors(g, v)|
    requires Neighbors(g, v)[k] in seen && seen[Neighbors(g, v)[k]] <= dist[v] + Weight(g, v, Neighbors(g, v)[k])
    ensures RelaxedPrefix(g, dist, seen, v, k + 1)
  {
    forall m | 0 <= m < k + 1
      ensures Neighbors(g, v)[m] in seen && seen[Neighbors(g, v)[m]] <= dist[v] + Weight(g, v, Neighbors(g, v)[m])
    {
    }
  }

  /** Relaxing an edge to an already finalised node changes nothing (networkx would raise if it improved). */
  lemma RelaxFinal(g: Graph, s: Node, dist: map<Node, int>, seen: map<Node, int>,
                   paths: map<Node, seq<Node>>, top: int, v: Node, k: nat)
    requires NonNegative(g) && Relaxing(g, s, dist, seen, paths, top, v, k)
    requires k < |Neighbors(g, v)| && Neighbors(g, v)[k] in dist
    ensures dist[Neighbors(g, v)[k]] <= dist[v] + Weight(g, v, Neighbors(g, v)[k])
    ensures Relaxing(g, s, dist, seen, paths, top, v, k + 1)
  {
    var u := Neighbors(g, v)[k];
    assert u in Neighbors(g, v);
    EdgeWeightPositive(g, v, u);
    assert Optimal(g, s, dist, seen, u);
    PrefixStep(g, dist, seen, v, k);
  }

  /** Relaxing an edge that does not improve the tentative distance changes nothing. */
  lemma RelaxKeep(g: Graph, s: Node, dist: map<Node, int>, seen: map<Node, int>,
                  paths: map<Node, seq<Node>>, top: int, v: Node, k: nat)
    requires Relaxing(g, s, dist, seen, paths, top, v, k)
    requires k < |Neighbors(g, v)| && Neighbors(g, v)[k] in seen
    requires dist[v] + Weight(g, v, Neighbors(g, v)[k]) >= seen[Neighbors(g, v)[k]]
    ensures Relaxing(g, s, dist, seen, paths, top, v, k + 1)
  {
    PrefixStep(g, dist, seen, v, k);
  }

  /** Recording the walk through v for its neighbour u keeps every recorded path a walk of its weight. */
  lemma ImproveRecorded(g: Graph, s: Node, seen: map<Node, int>, paths: map<Node, seq<Node>>, v: Node, u: Node, x: int)
    requires AllRecorded(g, s, seen, paths) && v in seen && v in paths && HasEdge(g, v, u) && x == seen[v] + Weight(g, v, u)
    ensures AllRecorded(g, s, seen[u := x], paths[u := paths[v] + [u]])
  {
    var seen', paths' := seen[u := x], paths[u := paths[v] + [u]];
    assert Recorded(g, s, seen, paths, v);
    WalkExtend(g, paths[v], s, v, u);
    forall w | w in seen' ensures Recorded(g, s, seen', paths', w) {
      if w != u {
        assert Recorded(g, s, seen, paths, w);
      }
    }
  }

  /** Changing the tentative distance of a node that is not finalised keeps the final ones optimal. */
  lemma ImproveOptimal(g: Graph, s: Node, dist: map<Node, int>, seen: map<Node, int>, u: Node, x: int)
    requires AllOptimal(g, s, dist, seen) && u !in dist
    ensures AllOptimal(g, s, dist, seen[u := x])
  {
    forall w | w in dist ensures Optimal(g, s, dist, seen[u := x], w) {
      assert Optimal(g, s, dist, seen, w);
    }
  }

  /** Relaxing an edge that improves (or first sets) the tentative distance of u. */
  lemma RelaxImprove(g: Graph, s: Node, dist: map<Node, int>, seen: map<Node, int>,
                     paths: map<Node, seq<Node>>, top: int, v: Node, k: nat, u: Node)
    requires NonNegative(g) && Relaxing(g, s, dist, seen, paths, top, v, k)
    requires k < |Neighbors(g, v)| && u == Neighbors(g, v)[k]
    requires u !in dist && (u !in seen || dist[v] + Weight(g, v, u) < seen[u])
    ensures Relaxing(g, s, dist, seen[u := dist[v] + Weight(g, v, u)], paths[u := paths[v] + [u]], top, v, k + 1)
  {
    var x := dist[v] + Weight(g, v, u);
    var seen', paths' := seen[u := x], paths[u := paths[v] + [u]];
    assert u in Neighbors(g, v);
    EdgeWeightPositive(g, v, u);
    assert Optimal(g, s, dist, seen, v);
    ImproveRecorded(g, s, seen, paths, v, u, x);
    ImproveOptimal(g, s, dist, seen, u, x);
    assert Lowered(seen, seen');
    LoweredRelaxed(g, dist, seen, seen', v, k);
    PrefixStep(g, dist, seen', v, k);
    assert Shape(g, s, dist, seen', paths');
    assert Separated(dist, seen', top);
  }

  /** Once all out-edges of v are relaxed, every finalised node is fully relaxed. */
  lemma RelaxDone(g: Graph, s: Node, dist: map<Node, int>, seen: map<Node, int>,
                  paths: map<Node, seq<Node>>, top: int, v: Node)
    requires Relaxing(g, s, dist, seen, paths, top, v, |Neighbors(g, v)|)
    ensures Settled(g, s, dist, seen, paths, top)
  {
    forall w | HasEdge(g, v, w) ensures w in seen && seen[w] <= dist[v] + Weight(g, v, w) {
      assert w in Neighbors(g, v);
      var m :| 0 <= m < |Neighbors(g, v)| && Neighbors(g, v)[m] == w;
    }
    assert RelaxedAll(g, dist, seen, v);
  }

  /** Appending the node just finalised at distance d, which no earlier distance exceeds. */
  lemma OrderedAppend(g: Graph, s: Node, order: seq<Node>, dist: map<Node, int>, v: Node, d: int)
    requires Ordered(s, order, dist) && v !in dist && v < g.Size() && (order == [] ==> v == s)
    requires forall u :: u in dist ==> u < g.Size() && dist[u] <= d
    ensures Ordered(s, order + [v], dist[v := d]) && |order| < g.Size()
  {
    var order', dist' := order + [v], dist[v := d];
    NodesAppend(order, v);
    forall i, j | 0 <= i < j < |order'| ensures order'[i] != order'[j] {
      assert order'[i] == order[i] && order[i] in Nodes(order);
      if j < |order| {
        assert order'[j] == order[j];
      }
    }
    forall i | 0 <= i < |order'| ensures order'[i] < g.Size() {
      if i < |order| {
        assert order'[i] == order[i] && order[i] in Nodes(order);
      }
    }
    DistinctBound(order', g.Size());
    forall i, j | 0 <= i < j < |order'| ensures dist'[order'[i]] <= dist'[order'[j]] {
      assert order'[i] == order[i] && order[i] in Nodes(order);
      if j < |order| {
        assert order'[j] == order[j] && order[j] in Nodes(order);
      }
    }
  }

  /** With no seen node left to finalise, the search has produced a shortest-path run. */
  lemma Finish(g: Graph, s: Node, order: seq<Node>, dist: map<Node, int>,
               seen: map<Node, int>, paths: map<Node, seq<Node>>, top: int)
    requires s < g.Size() && Settled(g, s, dist, seen, paths, top) && Ordered(s, order, dist)
    requires forall w :: w in seen ==> w in dist
    ensures IsShortestPathRun(g, s, Run(order, dist, paths))
  {
    assert dist.Keys == seen.Keys;
    assert s in Nodes(order);
    forall v | v in dist ensures ShortestIn(g, s, Run(order, dist, paths), v) {
      assert Recorded(g, s, seen, paths, v);
      assert Optimal(g, s, dist, seen, v);
    }
    forall v | v in Nodes(order) ensures v in ReachableSet(g, s) {
      assert Recorded(g, s, seen, paths, v);
    }
    forall v | v in ReachableSet(g, s) ensures v in Nodes(order) {
      forall x, y | x in dist.Keys && HasEdge(g, x, y) ensures y in dist.Keys {
        assert RelaxedAll(g, dist, seen, x);
      }
      ClosedHoldsReachable(g, s, dist.Keys, v);
    }
  }

  // ---------------------------------------------------------------- the algorithm

  /** The inner loop of the search: relaxes every out-edge of the node v just finalised. */
  method RelaxEdges(g: Graph, s: Node, dist: map<Node, int>, seen0: map<Node, int>, stamp0: map<Node, nat>,
                    counter0: nat, paths0: map<Node, seq<Node>>, ghost top: int, v: Node)
    returns (seen: map<Node, int>, stamp: map<Node, nat>, counter: nat, paths: map<Node, seq<Node>>)
    requires NonNegative(g) && Relaxing(g, s, dist, seen0, paths0, top, v, 0) && stamp0.Keys == seen0.Keys
    ensures Settled(g, s, dist, seen, paths, top) && stamp.Keys == seen.Keys
  {
    seen, stamp, counter, paths := seen0, stamp0, counter0, paths0;
    var nbrs := Neighbors(g, v);
    var d := dist[v];
    var i := 0;
    while i < |nbrs|
      invariant i <= |nbrs| && Relaxing(g, s, dist, seen, paths, top, v, i) && stamp.Keys == seen.Keys
    {
      var u := nbrs[i];
      var vu := d + Weight(g, v, u);
      if u in dist {
        // networkx raises "Contradictory paths found" if vu < dist[u]; RelaxFinal rules it out
        RelaxFinal(g, s, dist, seen, paths, top, v, i);
      } else if u !in seen || vu < seen[u] {
        RelaxImprove(g, s, dist, seen, paths, top, v, i, u);
        seen := seen[u := vu];
        stamp := stamp[u := counter];
        counter := counter + 1;
        paths := paths[u := paths[v] + [u]];
      } else {
        RelaxKeep(g, s, dist, seen, paths, top, v, i);
      }
      i := i + 1;
    }
    RelaxDone(g, s, dist, seen, paths, top, v);
  }

  /**
    Dijkstra from s over the matrix weights, which must not be negative (every edge then has
    a positive weight): finalises nodes in order of distance, ties going to the node whose
    tentative distance was set first, and records the path that set each final distance.
  */
  method Dijkstra(g: Graph, s: Node) returns (run: Run)
    requires NonNegative(g) && s < g.Size()
    ensures IsShortestPathRun(g, s, run)
  {
    var order: seq<Node> := [];
    var dist: map<Node, int> := map[];
    var seen: map<Node, int> := map[s := 0];
    var stamp: map<Node, nat> := map[s := 0];
    var counter: nat := 1;
    var paths: map<Node, seq<Node>> := map[s := [s]];
    ghost var top := 0;
    Start(g, s);
    var next := SelectMin(g.Size(), seen, stamp, dist);
    while next.Some?
      invariant Settled(g, s, dist, seen, paths, top) && Ordered(s, order, dist) && stamp.Keys == seen.Keys
      invariant next.None? <==> forall w :: w in seen ==> w in dist
      invariant next.Some? ==> next.value in seen && next.value !in dist
      invariant next.Some? ==> forall w :: w in seen && w !in dist ==> Before(seen, stamp, next.value, w)
      decreases g.Size() - |order|
    {
      var v := next.value;
      var d := seen[v];
      Finalise(g, s, dist, seen, paths, top, v);
      OrderedAppend(g, s, order, dist, v, d);
      dist := dist[v := d];
      order := order + [v];
      top := d;
      seen, stamp, counter, paths := RelaxEdges(g, s, dist, seen, stamp, counter, paths, top, v);
      next := SelectMin(g.Size(), seen, stamp, dist);
    }
    Finish(g, s, order, dist, seen, paths, top);
    run := Run(order, dist, paths);
  }
}
