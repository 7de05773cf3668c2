/**
  The graph built from an adjacency matrix (the `nx.from_numpy_array` calls of
  `elements/pl-graph-animate/graph-animate.py`).

  Nodes are the row indices 0..N-1. Edge (i,j) exists iff the matrix entry is non-zero:
  in a directed graph M[i][j] != 0, in an undirected graph M[i][j] != 0 or M[j][i] != 0
  (the union of both directions). The weight is the entry; for an undirected pair the entry
  scanned last in row-major order wins, because every non-zero entry is added as an edge
  and a later addition overwrites the weight of the same undirected edge.
*/
module Graphs {

  /** A node is a row/column index of the matrix. */
  type Node = nat

  /** An edge as (tail, head); in an undirected graph the smaller index comes first (see Key). */
  type Edge = (Node, Node)

  /** A square matrix with at least one row: what the validator lets through. */
  predicate IsSquare(m: seq<seq<int>>) {
    |m| >= 1 && forall i :: 0 <= i < |m| ==> |m[i]| == |m|
  }

  datatype Graph = Graph(matrix: seq<seq<int>>, directed: bool) {
    function Size(): nat { |matrix| }
    predicate Valid() { IsSquare(matrix) }
  }

  /** Builds the graph of a square matrix; directedness is fixed for the whole graph. */
  function Build(m: seq<seq<int>>, directed: bool): (g: Graph)
    requires IsSquare(m)
    ensures g.Valid() && g.Size() == |m| && g.directed == directed
    ensures forall i, j :: 0 <= i < |m| && 0 <= j < |m| ==>
      (directed ==> (HasEdge(g, i, j) <==> m[i][j] != 0) && Weight(g, i, j) == m[i][j])
  {
    Graph(m, directed)
  }

  /** The matrix entry, 0 outside the matrix. */
  function Entry(g: Graph, i: nat, j: nat): int {
    if i < |g.matrix| && j < |g.matrix[i]| then g.matrix[i][j] else 0
  }

  predicate HasEdge(g: Graph, i: nat, j: nat) {
    i < g.Size() && j < g.Size() && (Entry(g, i, j) != 0 || (!g.directed && Entry(g, j, i) != 0))
  }

  function Weight(g: Graph, i: nat, j: nat): int {
    if g.directed then Entry(g, i, j)
    else if i <= j then (if Entry(g, j, i) != 0 then Entry(g, j, i) else Entry(g, i, j))
    else (if Entry(g, i, j) != 0 then Entry(g, i, j) else Entry(g, j, i))
  }

  /** The key under which the graph stores edge (u,v): undirected edges are unordered pairs. */
  function Key(g: Graph, u: Node, v: Node): Edge {
    if g.directed || u <= v then (u, v) else (v, u)
  }

  /** An undirected graph is symmetric: edges and weights do not depend on the direction. */
  lemma UndirectedSymmetric(g: Graph, i: nat, j: nat)
    requires !g.directed
    ensures HasEdge(g, i, j) <==> HasEdge(g, j, i)
    ensures Weight(g, i, j) == Weight(g, j, i)
    ensures Key(g, i, j) == Key(g, j, i)
  {
  }

  /** For a symmetric matrix the undirected graph has exactly the matrix's edges and weights. */
  lemma SymmetricMatrixEdges(g: Graph, i: nat, j: nat)
    requires g.Valid() && !g.directed && i < g.Size() && j < g.Size()
    requires forall a, b :: 0 <= a < g.Size() && 0 <= b < g.Size() ==> g.matrix[a][b] == g.matrix[b][a]
    ensures HasEdge(g, i, j) <==> g.matrix[i][j] != 0
    ensures Weight(g, i, j) == g.matrix[i][j]
  {
  }

  /** The matrix has no negative entries, so every edge weight is positive. */
  predicate NonNegative(g: Graph) {
    forall i, j :: 0 <= i < |g.matrix| && 0 <= j < |g.matrix[i]| ==> g.matrix[i][j] >= 0
  }

  lemma EdgeWeightPositive(g: Graph, i: nat, j: nat)
    requires NonNegative(g) && HasEdge(g, i, j)
    ensures Weight(g, i, j) > 0
  {
  }

  predicate Ascending(xs: seq<Node>) {
    forall k, l :: 0 <= k < l < |xs| ==> xs[k] < xs[l]
  }

  /** Neighbours of u from index v upward, in ascending order (the scan order of the traversals). */
  function NeighborsFrom(g: Graph, u: Node, v: nat): (r: seq<Node>)
    decreases g.Size() - v
    ensures forall x :: x in r <==> v <= x < g.Size() && HasEdge(g, u, x)
  {
    if v >= g.Size() then []
    else (if HasEdge(g, u, v) then [v] else []) + NeighborsFrom(g, u, v + 1)
  }

  lemma AscendingCons(v: Node, rest: seq<Node>)
    requires Ascending(rest) && forall x :: x in rest ==> v < x
    ensures Ascending([v] + rest)
  {
    var r := [v] + rest;
    forall k, l | 0 <= k < l < |r| ensures r[k] < r[l] {
      assert r[l] == rest[l - 1] && r[l] in rest;
      if k > 0 {
        assert r[k] == rest[k - 1];
      }
    }
  }

  lemma {:induction false} NeighborsFromSorted(g: Graph, u: Node, v: nat)
    decreases g.Size() - v
    ensures Ascending(NeighborsFrom(g, u, v))
  {
    if v < g.Size() {
      NeighborsFromSorted(g, u, v + 1);
      if HasEdge(g, u, v) {
        AscendingCons(v, NeighborsFrom(g, u, v + 1));
      }
    }
  }

  /** The neighbours (successors when directed) of u. */
  function Neighbors(g: Graph, u: Node): (r: seq<Node>)
    ensures forall x :: x in r <==> HasEdge(g, u, x)
  {
    NeighborsFrom(g, u, 0)
  }

  /**
    Neighbours come in ascending order. That is networkx's adjacency order for a directed graph
    and for a symmetric matrix; an undirected graph from an asymmetric matrix can differ.
  */
  lemma NeighborsSorted(g: Graph, u: Node)
    ensures Ascending(Neighbors(g, u))
  {
    NeighborsFromSorted(g, u, 0);
    assert Neighbors(g, u) == NeighborsFrom(g, u, 0);
  }

  /** Every edge of the graph, under its key. */
  function Edges(g: Graph): (r: set<Edge>)
    ensures forall u, v :: HasEdge(g, u, v) ==> Key(g, u, v) in r
    ensures forall e :: e in r ==> HasEdge(g, e.0, e.1) && Key(g, e.0, e.1) == e
  {
    set u, v | 0 <= u < g.Size() && 0 <= v < g.Size() && HasEdge(g, u, v) :: Key(g, u, v)
  }

  // ---------------------------------------------------------------- walks

  predicate IsWalk(g: Graph, p: seq<Node>) {
    |p| >= 1 &&
    (forall i :: 0 <= i < |p| ==> p[i] < g.Size()) &&
    (forall i :: 0 <= i < |p| - 1 ==> HasEdge(g, p[i], p[i + 1]))
  }

  predicate IsWalkBetween(g: Graph, p: seq<Node>, s: Node, t: Node) {
    IsWalk(g, p) && p[0] == s && p[|p| - 1] == t
  }

  ghost predicate Reachable(g: Graph, s: Node, t: Node) {
    exists p :: IsWalkBetween(g, p, s, t)
  }

  ghost function ReachableSet(g: Graph, s: Node): set<Node> {
    set t | 0 <= t < g.Size() && Reachable(g, s, t)
  }

  /** Total weight of the edges along a walk. */
  function WalkWeight(g: Graph, p: seq<Node>): int
    decreases |p|
  {
    if |p| <= 1 then 0 else WalkWeight(g, p[..|p| - 1]) + Weight(g, p[|p| - 2], p[|p| - 1])
  }

  lemma WalkExtend(g: Graph, p: seq<Node>, s: Node, t: Node, v: Node)
    requires IsWalkBetween(g, p, s, t) && HasEdge(g, t, v)
    ensures IsWalkBetween(g, p + [v], s, v)
    ensures WalkWeight(g, p + [v]) == WalkWeight(g, p) + Weight(g, t, v)
  {
    assert (p + [v])[..|p|] == p;
  }

  lemma WalkPrefix(g: Graph, p: seq<Node>, k: nat)
    requires IsWalk(g, p) && 1 <= k <= |p|
    ensures IsWalkBetween(g, p[..k], p[0], p[k - 1])
  {
  }

  /** With non-negative weights, extending a walk never makes it lighter. */
  lemma {:induction false} WalkPrefixWeight(g: Graph, p: seq<Node>, k: nat)
    requires NonNegative(g) && IsWalk(g, p) && 1 <= k <= |p|
    ensures WalkWeight(g, p[..k]) <= WalkWeight(g, p)
    decreases |p| - k
  {
    if k < |p| {
      var q := p[..|p| - 1];
      assert q[..k] == p[..k];
      EdgeWeightPositive(g, p[|p| - 2], p[|p| - 1]);
      WalkPrefixWeight(g, q, k);
    } else {
      assert p[..k] == p;
    }
  }

  lemma {:induction false} WalkWeightNonNegative(g: Graph, p: seq<Node>)
    requires NonNegative(g) && IsWalk(g, p)
    ensures WalkWeight(g, p) >= 0
  {
    WalkPrefixWeight(g, p, 1);
  }

  /** A set that holds s and is closed under edges holds every node reachable from s. */
  lemma {:induction false} ClosedHoldsReachable(g: Graph, s: Node, S: set<Node>, t: Node)
    requires s in S
    requires forall x, y :: x in S && HasEdge(g, x, y) ==> y in S
    requires Reachable(g, s, t)
    ensures t in S
  {
    var p :| IsWalkBetween(g, p, s, t);
    var i := 0;
    while i < |p| - 1
      invariant 0 <= i <= |p| - 1
      invariant p[i] in S
    {
      assert HasEdge(g, p[i], p[i + 1]);
      i := i + 1;
    }
  }

  // ---------------------------------------------------------------- distinct sequences

  predicate Distinct(xs: seq<Node>) {
    forall i, j :: 0 <= i < j < |xs| ==> xs[i] != xs[j]
  }

  predicate Below(xs: seq<Node>, n: nat) {
    forall i :: 0 <= i < |xs| ==> xs[i] < n
  }

  function Nodes(xs: seq<Node>): set<Node> {
    set x | x in xs
  }

  lemma NodesAppend(xs: seq<Node>, v: Node)
    ensures Nodes(xs + [v]) == Nodes(xs) + {v}
  {
    assert forall x :: x in xs + [v] <==> x in xs || x == v;
  }

  lemma {:induction false} DistinctCard(xs: seq<Node>)
    requires Distinct(xs)
    ensures |Nodes(xs)| == |xs|
  {
    if xs != [] {
      var ys := xs[..|xs| - 1];
      DistinctCard(ys);
      assert Nodes(xs) == Nodes(ys) + {xs[|xs| - 1]};
      assert xs[|xs| - 1] !in Nodes(ys);
    }
  }

  /** The nodes 0..n-1. */
  function Range(n: nat): (r: set<Node>)
    ensures forall i: Node :: i in r <==> i < n
    ensures |r| == n
  {
    if n == 0 then {} else
      var r := Range(n - 1);
      assert n - 1 !in r;
      r + {n - 1}
  }

  lemma {:induction false} SubsetCard(a: set<Node>, b: set<Node>)
    requires a <= b
    ensures |a| <= |b|
  {
    if a != {} {
      var x :| x in a;
      SubsetCard(a - {x}, b - {x});
    }
  }

  /** A duplicate-free sequence of nodes below n has at most n elements. */
  lemma DistinctBound(xs: seq<Node>, n: nat)
    requires Distinct(xs) && Below(xs, n)
    ensures |xs| <= n
  {
    DistinctCard(xs);
    SubsetCard(Nodes(xs), Range(n));
  }
}
