/**
  Breadth-first and depth-first traversal from a start node (`nx.bfs_edges` / `nx.bfs_tree`
  and `nx.dfs_edges` / `nx.dfs_preorder_nodes` as used by
  `elements/pl-graph-animate/graph-animate.py`).

  The reference definition, `Traverse`, rescans the visited nodes at every step: it extends
  the EARLIEST visited node that still has an unvisited neighbour (breadth-first) or the
  LATEST one (depth-first), and visits that node's first unvisited neighbour in ascending
  order. `Bfs` (a FIFO queue) and `Dfs` (a stack of neighbour iterators) compute the same
  trace the way the library does.
*/
module Traversal {
  import opened Wrappers
  import opened Graphs

  datatype Mode = Breadth | Depth

  /** Visit order and tree edges: tree[k] is the edge that discovered order[k+1]. */
  datatype Trace = Trace(order: seq<Node>, tree: seq<Edge>)

  /** The first element of xs that has not been visited. */
  function FirstUnvisited(xs: seq<Node>, visited: set<Node>): (r: Option<Node>)
    ensures r.None? <==> forall x :: x in xs ==> x in visited
    ensures r.Some? ==> r.value in xs && r.value !in visited
  {
    if xs == [] then None
    else if xs[0] !in visited then Some(xs[0])
    else FirstUnvisited(xs[1..], visited)
  }

  lemma {:induction false} FirstUnvisitedAt(xs: seq<Node>, visited: set<Node>, i: nat)
    requires i < |xs| && xs[i] !in visited
    requires forall m :: 0 <= m < i ==> xs[m] in visited
    ensures FirstUnvisited(xs, visited) == Some(xs[i])
  {
    if i > 0 {
      FirstUnvisitedAt(xs[1..], visited, i - 1);
    }
  }

  /** In an ascending list, the first unvisited element is the smallest unvisited one. */
  lemma {:induction false} FirstUnvisitedIsLeast(xs: seq<Node>, visited: set<Node>, x: Node)
    requires Ascending(xs)
    requires x in xs && x !in visited
    ensures FirstUnvisited(xs, visited).Some? && FirstUnvisited(xs, visited).value <= x
  {
    if xs[0] in visited {
      assert x != xs[0];
      assert x in xs[1..];
      FirstUnvisitedIsLeast(xs[1..], visited, x);
    }
  }

  /** A node is finished once all its neighbours are visited. */
  predicate Finished(g: Graph, u: Node, visited: set<Node>) {
    forall v :: v in Neighbors(g, u) ==> v in visited
  }

  /** Finished w.r.t. a prefix stays finished as more nodes are visited. */
  lemma FinishedGrows(g: Graph, u: Node, visited: set<Node>, more: set<Node>)
    requires Finished(g, u, visited) && visited <= more
    ensures Finished(g, u, more)
  {
  }

  /** The first index from j on whose node is not finished. */
  function ScanUp(g: Graph, order: seq<Node>, visited: set<Node>, j: nat): (r: Option<nat>)
    requires j <= |order|
    decreases |order| - j
    ensures r.Some? ==> j <= r.value < |order| && !Finished(g, order[r.value], visited)
  {
    if j == |order| then None
    else if !Finished(g, order[j], visited) then Some(j)
    else ScanUp(g, order, visited, j + 1)
  }

  /** The last index below j whose node is not finished. */
  function ScanDown(g: Graph, order: seq<Node>, visited: set<Node>, j: nat): (r: Option<nat>)
    requires j <= |order|
    ensures r.Some? ==> r.value < j && !Finished(g, order[r.value], visited)
  {
    if j == 0 then None
    else if !Finished(g, order[j - 1], visited) then Some(j - 1)
    else ScanDown(g, order, visited, j - 1)
  }

  lemma {:induction false} ScanUpSpec(g: Graph, order: seq<Node>, visited: set<Node>, j: nat)
    requires j <= |order|
    decreases |order| - j
    ensures var r := ScanUp(g, order, visited, j);
      (r.Some? ==> forall k :: j <= k < r.value ==> Finished(g, order[k], visited)) &&
      (r.None? <==> forall k :: j <= k < |order| ==> Finished(g, order[k], visited))
  {
    if j < |order| && Finished(g, order[j], visited) {
      ScanUpSpec(g, order, visited, j + 1);
    }
  }

  lemma {:induction false} ScanDownSpec(g: Graph, order: seq<Node>, visited: set<Node>, j: nat)
    requires j <= |order|
    ensures var r := ScanDown(g, order, visited, j);
      (r.Some? ==> forall k :: r.value < k < j ==> Finished(g, order[k], visited)) &&
      (r.None? <==> forall k :: 0 <= k < j ==> Finished(g, order[k], visited))
  {
    if j > 0 && Finished(g, order[j - 1], visited) {
      ScanDownSpec(g, order, visited, j - 1);
    }
  }

  /**
    The index of the visited node the next step extends: the earliest unfinished one
    (breadth-first) or the latest unfinished one (depth-first); None once all are finished.
    `ParentIndexSpec` states the choice in full.
  */
  function ParentIndex(g: Graph, mode: Mode, order: seq<Node>): (r: Option<nat>)
    ensures r.Some? ==> r.value < |order| && !Finished(g, order[r.value], Nodes(order))
  {
    if mode == Breadth then ScanUp(g, order, Nodes(order), 0) else ScanDown(g, order, Nodes(order), |order|)
  }

  lemma ParentIndexSpec(g: Graph, mode: Mode, order: seq<Node>)
    ensures var r := ParentIndex(g, mode, order);
      (r.Some? && mode == Breadth ==> forall k :: 0 <= k < r.value ==> Finished(g, order[k], Nodes(order))) &&
      (r.Some? && mode == Depth ==> forall k :: r.value < k < |order| ==> Finished(g, order[k], Nodes(order))) &&
      (r.None? <==> forall k :: 0 <= k < |order| ==> Finished(g, order[k], Nodes(order)))
  {
    if mode == Breadth {
      ScanUpSpec(g, order, Nodes(order), 0);
    } else {
      ScanDownSpec(g, order, Nodes(order), |order|);
    }
  }

  /** The unfinished node a step extends is determined by the finished/unfinished pattern. */
  lemma ParentIndexIs(g: Graph, mode: Mode, order: seq<Node>, p: nat)
    requires p < |order| && !Finished(g, order[p], Nodes(order))
    requires mode == Breadth ==> forall k :: 0 <= k < p ==> Finished(g, order[k], Nodes(order))
    requires mode == Depth ==> forall k :: p < k < |order| ==> Finished(g, order[k], Nodes(order))
    ensures ParentIndex(g, mode, order) == Some(p)
  {
    ParentIndexSpec(g, mode, order);
  }

  /** The next tree edge: (parent, first unvisited neighbour of the parent), if any. */
  function Next(g: Graph, mode: Mode, order: seq<Node>): (r: Option<Edge>)
    ensures r.None? <==> ParentIndex(g, mode, order).None?
    ensures r.Some? ==> r.value.0 == order[ParentIndex(g, mode, order).value]
    ensures r.Some? ==> r.value.1 !in Nodes(order) && HasEdge(g, r.value.0, r.value.1)
  {
    match ParentIndex(g, mode, order)
    case None => None
    case Some(p) => Some((order[p], FirstUnvisited(Neighbors(g, order[p]), Nodes(order)).value))
  }

  /** Continues a partial traversal until no visited node has an unvisited neighbour. */
  function Explore(g: Graph, mode: Mode, order: seq<Node>, tree: seq<Edge>): (r: Trace)
    requires Distinct(order) && Below(order, g.Size())
    decreases g.Size() - |order|
    ensures order <= r.order
  {
    match Next(g, mode, order)
    case None => Trace(order, tree)
    case Some(e) =>
      DistinctBound(order + [e.1], g.Size());
      Explore(g, mode, order + [e.1], tree + [e])
  }

  function Traverse(g: Graph, mode: Mode, s: Node): (r: Trace)
    requires s < g.Size()
    ensures |r.order| >= 1 && r.order[0] == s
  {
    Explore(g, mode, [s], [])
  }

  /** One step of the reference traversal: visiting e.1 through e leaves the final trace unchanged. */
  lemma ExploreStep(g: Graph, mode: Mode, order: seq<Node>, tree: seq<Edge>, e: Edge)
    requires Distinct(order) && Below(order, g.Size())
    requires Next(g, mode, order) == Some(e)
    ensures Distinct(order + [e.1]) && Below(order + [e.1], g.Size()) && |order| < g.Size()
    ensures Nodes(order + [e.1]) == Nodes(order) + {e.1}
    ensures Explore(g, mode, order, tree) == Explore(g, mode, order + [e.1], tree + [e])
  {
    DistinctBound(order + [e.1], g.Size());
    NodesAppend(order, e.1);
  }

  /**
    The rule's next step from a visited prefix whose nodes before p are finished (breadth-first)
    or after p are finished (depth-first): the first unvisited neighbour of order[p].
  */
  lemma NextIs(g: Graph, mode: Mode, order: seq<Node>, p: nat, nbrs: seq<Node>, i: nat)
    requires p < |order| && nbrs == Neighbors(g, order[p])
    requires i < |nbrs| && nbrs[i] !in Nodes(order)
    requires forall m :: 0 <= m < i ==> nbrs[m] in Nodes(order)
    requires mode == Breadth ==> forall k :: 0 <= k < p ==> Finished(g, order[k], Nodes(order))
    requires mode == Depth ==> forall k :: p < k < |order| ==> Finished(g, order[k], Nodes(order))
    ensures Next(g, mode, order) == Some((order[p], nbrs[i]))
  {
    FirstUnvisitedAt(nbrs, Nodes(order), i);
    ParentIndexIs(g, mode, order, p);
  }

  // ---------------------------------------------------------------- properties of the reference

  /** Every recorded step is the step the rule prescribes for the nodes visited before it. */
  ghost predicate Consistent(g: Graph, mode: Mode, t: Trace) {
    |t.order| == |t.tree| + 1 && Distinct(t.order) && Below(t.order, g.Size()) &&
    forall k {:trigger Next(g, mode, t.order[..k + 1])} :: 0 <= k < |t.tree| ==>
      t.tree[k].1 == t.order[k + 1] && Next(g, mode, t.order[..k + 1]) == Some(t.tree[k])
  }

  /** Taking the step the rule prescribes keeps a trace consistent. */
  lemma ConsistentAppend(g: Graph, mode: Mode, t: Trace, e: Edge)
    requires Consistent(g, mode, t) && Next(g, mode, t.order) == Some(e)
    ensures Consistent(g, mode, Trace(t.order + [e.1], t.tree + [e]))
  {
    ExploreStep(g, mode, t.order, t.tree, e);
    var order', tree' := t.order + [e.1], t.tree + [e];
    forall k | 0 <= k < |tree'|
      ensures tree'[k].1 == order'[k + 1] && Next(g, mode, order'[..k + 1]) == Some(tree'[k])
    {
      if k < |t.tree| {
        assert order'[..k + 1] == t.order[..k + 1];
        assert Next(g, mode, t.order[..k + 1]) == Some(t.tree[k]);
        assert tree'[k] == t.tree[k] && order'[k + 1] == t.order[k + 1];
      } else {
        assert order'[..k + 1] == t.order;
      }
    }
  }

  lemma {:induction false} ExploreConsistent(g: Graph, mode: Mode, order: seq<Node>, tree: seq<Edge>)
    requires Consistent(g, mode, Trace(order, tree))
    ensures Consistent(g, mode, Explore(g, mode, order, tree))
    ensures Next(g, mode, Explore(g, mode, order, tree).order) == None
    decreases g.Size() - |order|
  {
    match Next(g, mode, order)
    case None =>
    case Some(e) =>
      ExploreStep(g, mode, order, tree, e);
      ConsistentAppend(g, mode, Trace(order, tree), e);
      ExploreConsistent(g, mode, order + [e.1], tree + [e]);
  }

  lemma SliceAppend(xs: seq<Node>, v: Node, h: nat)
    requires h <= |xs|
    ensures (xs + [v])[h..] == xs[h..] + [v]
  {
  }

  lemma DropLast<T>(xs: seq<T>)
    requires xs != []
    ensures xs[..|xs| - 1] + [xs[|xs| - 1]] == xs
  {
  }

  /** Dropping the last step of a consistent trace leaves a consistent trace. */
  lemma ConsistentDropLast(g: Graph, mode: Mode, t: Trace)
    requires Consistent(g, mode, t) && t.tree != []
    ensures var n := |t.tree| - 1;
      Consistent(g, mode, Trace(t.order[..n + 1], t.tree[..n])) &&
      Next(g, mode, t.order[..n + 1]) == Some(t.tree[n]) &&
      t.order[..n + 1] + [t.tree[n].1] == t.order && t.tree[..n] + [t.tree[n]] == t.tree
  {
    var n := |t.tree| - 1;
    var order', tree' := t.order[..n + 1], t.tree[..n];
    forall i, j | 0 <= i < j < |order'| ensures order'[i] != order'[j] {
      assert order'[i] == t.order[i] && order'[j] == t.order[j];
    }
    forall i | 0 <= i < |order'| ensures order'[i] < g.Size() {
      assert order'[i] == t.order[i];
    }
    forall k | 0 <= k < |tree'|
      ensures tree'[k].1 == order'[k + 1] && Next(g, mode, order'[..k + 1]) == Some(tree'[k])
    {
      assert order'[..k + 1] == t.order[..k + 1];
      assert Next(g, mode, t.order[..k + 1]) == Some(t.tree[k]);
      assert tree'[k] == t.tree[k] && order'[k + 1] == t.order[k + 1];
    }
    assert Consistent(g, mode, Trace(order', tree'));
    assert Next(g, mode, t.order[..n + 1]) == Some(t.tree[n]);
    assert t.tree[n].1 == t.order[n + 1];
    DropLast(t.order);
    DropLast(t.tree);
  }

  /** A consistent trace is a stage of the reference traversal from its first node. */
  lemma {:induction false} ConsistentIsStage(g: Graph, mode: Mode, t: Trace)
    requires Consistent(g, mode, t)
    ensures Explore(g, mode, [t.order[0]], []) == Explore(g, mode, t.order, t.tree)
    decreases |t.tree|
  {
    if t.tree == [] {
      assert t.order == [t.order[0]];
    } else {
      var n := |t.tree| - 1;
      ConsistentDropLast(g, mode, t);
      var t' := Trace(t.order[..n + 1], t.tree[..n]);
      ConsistentIsStage(g, mode, t');
      assert t'.order[0] == t.order[0];
      ExploreStep(g, mode, t'.order, t'.tree, t.tree[n]);
    }
  }

  /** A consistent trace from s at which the rule stops is the reference traversal from s. */
  lemma CompleteIsTraverse(g: Graph, mode: Mode, t: Trace, s: Node)
    requires Consistent(g, mode, t) && t.order[0] == s && s < g.Size()
    requires Next(g, mode, t.order) == None
    ensures t == Traverse(g, mode, s)
  {
    ConsistentIsStage(g, mode, t);
  }

  /** The reference traversal is consistent and complete: no visited node is left unfinished. */
  lemma TraverseConsistent(g: Graph, mode: Mode, s: Node)
    requires s < g.Size()
    ensures Consistent(g, mode, Traverse(g, mode, s))
    ensures forall k :: 0 <= k < |Traverse(g, mode, s).order| ==>
      Finished(g, Traverse(g, mode, s).order[k], Nodes(Traverse(g, mode, s).order))
  {
    ExploreConsistent(g, mode, [s], []);
    ParentIndexSpec(g, mode, Traverse(g, mode, s).order);
  }

  /**
    Tree edge k leaves a node visited before step k, joins it to order[k+1] by an edge of the
    graph, and order[k+1] is the smallest neighbour of that node not visited before step k.
  */
  lemma TreeEdges(g: Graph, mode: Mode, t: Trace, k: nat)
    requires Consistent(g, mode, t) && k < |t.tree|
    ensures t.tree[k].0 in t.order[..k + 1] && t.tree[k].1 == t.order[k + 1]
    ensures HasEdge(g, t.tree[k].0, t.tree[k].1)
    ensures forall w :: HasEdge(g, t.tree[k].0, w) && w !in t.order[..k + 1] ==> t.tree[k].1 <= w
  {
    var prefix := t.order[..k + 1];
    assert Next(g, mode, prefix) == Some(t.tree[k]);
    var p := ParentIndex(g, mode, prefix).value;
    assert t.tree[k] == (prefix[p], FirstUnvisited(Neighbors(g, prefix[p]), Nodes(prefix)).value);
    forall w | HasEdge(g, t.tree[k].0, w) && w !in prefix
      ensures t.tree[k].1 <= w
    {
      NeighborsSorted(g, prefix[p]);
      FirstUnvisitedIsLeast(Neighbors(g, prefix[p]), Nodes(prefix), w);
    }
  }

  /** Every node of a consistent trace is reachable from its first node. */
  lemma {:induction false} ConsistentReachable(g: Graph, mode: Mode, t: Trace, i: nat)
    requires Consistent(g, mode, t) && i < |t.order|
    ensures Reachable(g, t.order[0], t.order[i])
    decreases i
  {
    if i == 0 {
      assert IsWalkBetween(g, [t.order[0]], t.order[0], t.order[0]);
    } else {
      TreeEdges(g, mode, t, i - 1);
      var u := t.tree[i - 1].0;
      var j :| 0 <= j < i && t.order[j] == u;
      ConsistentReachable(g, mode, t, j);
      var p :| IsWalkBetween(g, p, t.order[0], u);
      WalkExtend(g, p, t.order[0], u, t.order[i]);
    }
  }

  /**
    The traversal visits exactly the nodes reachable from s, each once, s first;
    so its length (the number of frames) is the number of reachable nodes.
  */
  lemma TraverseVisitsReachable(g: Graph, mode: Mode, s: Node)
    requires s < g.Size()
    ensures var t := Traverse(g, mode, s);
      t.order[0] == s && Distinct(t.order) && |t.tree| == |t.order| - 1 &&
      Nodes(t.order) == ReachableSet(g, s) && |t.order| == |ReachableSet(g, s)|
  {
    TraverseConsistent(g, mode, s);
    var t := Traverse(g, mode, s);
    forall v | v in Nodes(t.order) ensures v in ReachableSet(g, s) {
      var i :| 0 <= i < |t.order| && t.order[i] == v;
      ConsistentReachable(g, mode, t, i);
    }
    forall v | v in ReachableSet(g, s) ensures v in Nodes(t.order) {
      forall x, y | x in Nodes(t.order) && HasEdge(g, x, y) ensures y in Nodes(t.order) {
        var i :| 0 <= i < |t.order| && t.order[i] == x;
        assert Finished(g, t.order[i], Nodes(t.order));
        assert y in Neighbors(g, x);
      }
      ClosedHoldsReachable(g, s, Nodes(t.order), v);
    }
    DistinctCard(t.order);
  }

  /** Depth-first: whenever the node just visited has an unvisited neighbour, the walk goes deeper from it. */
  lemma DepthGoesDeeper(g: Graph, t: Trace, k: nat)
    requires Consistent(g, Depth, t) && k < |t.tree|
    requires !Finished(g, t.order[k], Nodes(t.order[..k + 1]))
    ensures t.tree[k].0 == t.order[k]
  {
    var prefix := t.order[..k + 1];
    assert Next(g, Depth, prefix) == Some(t.tree[k]);
    ParentIndexIs(g, Depth, prefix, k);
  }

  /** Breadth-first: a node is extended only once every node visited before it is finished. */
  lemma BreadthExtendsEarliest(g: Graph, t: Trace, k: nat, j: nat)
    requires Consistent(g, Breadth, t) && k < |t.tree| && j <= k
    requires t.order[j] == t.tree[k].0
    ensures forall i :: 0 <= i < j ==> Finished(g, t.order[i], Nodes(t.order[..k + 1]))
  {
    var prefix := t.order[..k + 1];
    assert Next(g, Breadth, prefix) == Some(t.tree[k]);
    var p := ParentIndex(g, Breadth, prefix).value;
    ParentIndexSpec(g, Breadth, prefix);
    assert prefix[p] == prefix[j];
  }

  // ---------------------------------------------------------------- the library's algorithms

  /**
    Visiting nbrs[i], the first unvisited neighbour of order[p], is the step the rule
    prescribes when the nodes before p (breadth-first) or after p (depth-first) are finished.
  */
  lemma VisitStep(g: Graph, mode: Mode, t: Trace, p: nat, nbrs: seq<Node>, i: nat)
    requires Consistent(g, mode, t)
    requires p < |t.order| && nbrs == Neighbors(g, t.order[p])
    requires i < |nbrs| && nbrs[i] !in Nodes(t.order)
    requires forall m :: 0 <= m < i ==> nbrs[m] in Nodes(t.order)
    requires mode == Breadth ==> forall k :: 0 <= k < p ==> Finished(g, t.order[k], Nodes(t.order))
    requires mode == Depth ==> forall k :: p < k < |t.order| ==> Finished(g, t.order[k], Nodes(t.order))
    ensures Consistent(g, mode, Trace(t.order + [nbrs[i]], t.tree + [(t.order[p], nbrs[i])]))
    ensures Nodes(t.order + [nbrs[i]]) == Nodes(t.order) + {nbrs[i]} && |t.order| < g.Size()
  {
    NextIs(g, mode, t.order, p, nbrs, i);
    ExploreStep(g, mode, t.order, t.tree, (t.order[p], nbrs[i]));
    ConsistentAppend(g, mode, t, (t.order[p], nbrs[i]));
  }

  /** Breadth-first search with a FIFO queue, neighbours in ascending order. */
  method Bfs(g: Graph, s: Node) returns (order: seq<Node>, tree: seq<Edge>)
    requires s < g.Size()
    ensures Trace(order, tree) == Traverse(g, Breadth, s)
  {
    order, tree := [s], [];
    var visited: set<Node> := {s};
    var queue: seq<Node> := [s];
    ghost var head := 0;
    while queue != []
      invariant Consistent(g, Breadth, Trace(order, tree)) && order[0] == s && |order| <= g.Size()
      invariant head <= |order| && queue == order[head..]
      invariant visited == Nodes(order)
      invariant forall j :: 0 <= j < head ==> Finished(g, order[j], visited)
      decreases g.Size() - head
    {
      var u := queue[0];
      queue := queue[1..];
      var nbrs := Neighbors(g, u);
      var i := 0;
      while i < |nbrs|
        invariant Consistent(g, Breadth, Trace(order, tree)) && order[0] == s && |order| <= g.Size()
        invariant i <= |nbrs| && head < |order| && order[head] == u && queue == order[head + 1..]
        invariant visited == Nodes(order)
        invariant forall j :: 0 <= j < head ==> Finished(g, order[j], visited)
        invariant forall m :: 0 <= m < i ==> nbrs[m] in visited
      {
        var v := nbrs[i];
        if v !in visited {
          VisitStep(g, Breadth, Trace(order, tree), head, nbrs, i);
          SliceAppend(order, v, head + 1);
          order, tree := order + [v], tree + [(u, v)];
          visited := visited + {v};
          queue := queue + [v];
        }
        i := i + 1;
      }
      head := head + 1;
    }
    ParentIndexSpec(g, Breadth, order);
    CompleteIsTraverse(g, Breadth, Trace(order, tree), s);
  }

  /**
    The depth-first stack: its entries are visited nodes in visit order with their neighbour
    iterators, every neighbour an iterator has passed is visited, and every visited node no
    longer on the stack is finished. at[a] is the position in order of stack[a]'s node.
  */
  ghost predicate StackInv(g: Graph, order: seq<Node>, stack: seq<(Node, nat)>, at: seq<nat>) {
    |at| == |stack| &&
    (forall a :: 0 <= a < |stack| ==> at[a] < |order| && stack[a].0 == order[at[a]]) &&
    (forall a, b :: 0 <= a < b < |stack| ==> at[a] < at[b]) &&
    (forall a :: 0 <= a < |stack| ==>
      stack[a].1 <= |Neighbors(g, stack[a].0)| &&
      forall m :: 0 <= m < stack[a].1 ==> Neighbors(g, stack[a].0)[m] in Nodes(order)) &&
    (forall j :: 0 <= j < |order| && j !in at ==> Finished(g, order[j], Nodes(order)))
  }

  /** Every node visited after the top of the stack is finished. */
  lemma StackTopLast(g: Graph, order: seq<Node>, stack: seq<(Node, nat)>, at: seq<nat>)
    requires StackInv(g, order, stack, at) && stack != []
    ensures at[|at| - 1] < |order|
    ensures forall j :: at[|at| - 1] < j < |order| ==> Finished(g, order[j], Nodes(order))
  {
    forall j | at[|at| - 1] < j < |order| ensures Finished(g, order[j], Nodes(order)) {
      assert j !in at;
    }
  }

  /** Advancing the top iterator to pos, visiting its neighbour there and pushing it. */
  lemma StackPush(g: Graph, order: seq<Node>, stack: seq<(Node, nat)>, at: seq<nat>, u: Node, pos: nat, v: Node)
    requires StackInv(g, order, stack, at) && stack != [] && u == stack[|stack| - 1].0
    requires stack[|stack| - 1].1 <= pos < |Neighbors(g, u)| && v == Neighbors(g, u)[pos]
    requires forall m :: 0 <= m < pos ==> Neighbors(g, u)[m] in Nodes(order)
    ensures StackInv(g, order + [v], stack[|stack| - 1 := (u, pos + 1)] + [(v, 0)], at + [|order|])
  {
    var order', stack', at' := order + [v], stack[|stack| - 1 := (u, pos + 1)] + [(v, 0)], at + [|order|];
    NodesAppend(order, v);
    assert Nodes(order) <= Nodes(order');
    forall a | 0 <= a < |stack'| ensures at'[a] < |order'| && stack'[a].0 == order'[at'[a]] {
      if a < |stack| {
        assert at'[a] == at[a] && stack'[a].0 == stack[a].0;
      }
    }
    forall a, b | 0 <= a < b < |stack'| ensures at'[a] < at'[b] {
      assert at'[a] == at[a];
    }
    forall a | 0 <= a < |stack'|
      ensures stack'[a].1 <= |Neighbors(g, stack'[a].0)| &&
        forall m :: 0 <= m < stack'[a].1 ==> Neighbors(g, stack'[a].0)[m] in Nodes(order')
    {
      if a < |stack| - 1 {
        assert stack'[a] == stack[a];
      }
    }
    forall j | 0 <= j < |order'| && j !in at' ensures Finished(g, order'[j], Nodes(order')) {
      assert j < |order| && j !in at;
      FinishedGrows(g, order[j], Nodes(order), Nodes(order'));
    }
  }

  /** Popping an exhausted top node: it is finished. */
  lemma StackPop(g: Graph, order: seq<Node>, stack: seq<(Node, nat)>, at: seq<nat>, u: Node)
    requires StackInv(g, order, stack, at) && stack != [] && u == stack[|stack| - 1].0
    requires forall m :: 0 <= m < |Neighbors(g, u)| ==> Neighbors(g, u)[m] in Nodes(order)
    ensures StackInv(g, order, stack[..|stack| - 1], at[..|at| - 1])
  {
    forall j | 0 <= j < |order| && j !in at[..|at| - 1] ensures Finished(g, order[j], Nodes(order)) {
      if j == at[|at| - 1] {
        forall w | w in Neighbors(g, u) ensures w in Nodes(order) {
          var m :| 0 <= m < |Neighbors(g, u)| && Neighbors(g, u)[m] == w;
        }
      } else {
        assert j !in at;
      }
    }
  }

  /** The loop invariant of `Dfs`: a consistent depth-first trace from s and its stack. */
  ghost predicate DfsInv(g: Graph, s: Node, order: seq<Node>, tree: seq<Edge>, stack: seq<(Node, nat)>, at: seq<nat>) {
    Consistent(g, Depth, Trace(order, tree)) && order[0] == s && |order| <= g.Size() &&
    StackInv(g, order, stack, at)
  }

  /** Visiting the first unvisited neighbour (at pos) of the top node and pushing it. */
  lemma DfsPush(g: Graph, s: Node, order: seq<Node>, tree: seq<Edge>, stack: seq<(Node, nat)>, at: seq<nat>, u: Node, pos: nat)
    requires DfsInv(g, s, order, tree, stack, at) && stack != [] && u == stack[|stack| - 1].0
    requires stack[|stack| - 1].1 <= pos < |Neighbors(g, u)| && Neighbors(g, u)[pos] !in Nodes(order)
    requires forall m :: 0 <= m < pos ==> Neighbors(g, u)[m] in Nodes(order)
    ensures var v := Neighbors(g, u)[pos];
      DfsInv(g, s, order + [v], tree + [(u, v)], stack[|stack| - 1 := (u, pos + 1)] + [(v, 0)], at + [|order|]) &&
      Nodes(order + [v]) == Nodes(order) + {v} && |order| < g.Size()
  {
    var v := Neighbors(g, u)[pos];
    StackTopLast(g, order, stack, at);
    VisitStep(g, Depth, Trace(order, tree), at[|at| - 1], Neighbors(g, u), pos);
    StackPush(g, order, stack, at, u, pos, v);
  }

  /** Popping the top node once its iterator is exhausted. */
  lemma DfsPop(g: Graph, s: Node, order: seq<Node>, tree: seq<Edge>, stack: seq<(Node, nat)>, at: seq<nat>, u: Node)
    requires DfsInv(g, s, order, tree, stack, at) && stack != [] && u == stack[|stack| - 1].0
    requires forall m :: 0 <= m < |Neighbors(g, u)| ==> Neighbors(g, u)[m] in Nodes(order)
    ensures DfsInv(g, s, order, tree, stack[..|stack| - 1], at[..|at| - 1])
  {
    StackPop(g, order, stack, at, u);
  }

  /** An empty stack means every visited node is finished: the traversal is complete. */
  lemma DfsDone(g: Graph, s: Node, order: seq<Node>, tree: seq<Edge>, at: seq<nat>)
    requires DfsInv(g, s, order, tree, [], at) && s < g.Size()
    ensures Trace(order, tree) == Traverse(g, Depth, s)
  {
    ParentIndexSpec(g, Depth, order);
    CompleteIsTraverse(g, Depth, Trace(order, tree), s);
  }

  /**
    Depth-first search with a stack of (node, position of its neighbour iterator):
    the top node's next unvisited neighbour is visited and pushed; an exhausted node is popped.
  */
  method Dfs(g: Graph, s: Node) returns (order: seq<Node>, tree: seq<Edge>)
    requires s < g.Size()
    ensures Trace(order, tree) == Traverse(g, Depth, s)
  {
    order, tree := [s], [];
    var visited: set<Node> := {s};
    var stack: seq<(Node, nat)> := [(s, 0)];
    ghost var at: seq<nat> := [0];   // at[a] is the position in order of stack[a]'s node
    while stack != []
      invariant DfsInv(g, s, order, tree, stack, at) && visited == Nodes(order)
      decreases g.Size() - |order|, |stack|
    {
      var u := stack[|stack| - 1].0;
      var pos := stack[|stack| - 1].1;
      var nbrs := Neighbors(g, u);
      while pos < |nbrs| && nbrs[pos] in visited
        invariant stack[|stack| - 1].1 <= pos <= |nbrs|
        invariant forall m :: 0 <= m < pos ==> nbrs[m] in visited
      {
        pos := pos + 1;
      }
      if pos < |nbrs| {
        var v := nbrs[pos];
        DfsPush(g, s, order, tree, stack, at, u, pos);
        at := at + [|order|];
        order, tree := order + [v], tree + [(u, v)];
        visited := visited + {v};
        stack := stack[|stack| - 1 := (u, pos + 1)] + [(v, 0)];
      } else {
        DfsPop(g, s, order, tree, stack, at, u);
        stack := stack[..|stack| - 1];
        at := at[..|at| - 1];
      }
    }
    DfsDone(g, s, order, tree, at);
  }
}
