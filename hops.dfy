/**
  Breadth-first order is by non-decreasing hop distance from the start node
  (`nx.bfs_edges` / `nx.bfs_tree` in `generate_frames_bfs_from_matrix`).

  `Level(g, t, i)` is the depth of `t.order[i]` in the breadth-first tree: the tree parent of
  `t.order[i]` is the node the rule extended when it visited `t.order[i]`. For the complete
  breadth-first traversal this depth is exactly the hop distance (the fewest edges of any walk
  from the start node), and it never decreases along the visit order.
*/
module Hops {
  import opened Wrappers
  import opened Graphs
  import opened Traversal

  /** The index of the node that was extended to visit order[i] (its tree parent). */
  function ParentOf(g: Graph, t: Trace, i: nat): (p: nat)
    requires 1 <= i <= |t.order|
    ensures p < i
  {
    match ParentIndex(g, Breadth, t.order[..i])
    case None => 0
    case Some(q) => q
  }

  /** The depth of order[i] in the breadth-first tree. */
  function Level(g: Graph, t: Trace, i: nat): nat
    requires i < |t.order|
    decreases i
  {
    if i == 0 then 0 else Level(g, t, ParentOf(g, t, i)) + 1
  }

  /** The tree edge that discovered order[i] leaves order[ParentOf(i)]. */
  lemma ParentEdge(g: Graph, t: Trace, i: nat)
    requires Consistent(g, Breadth, t) && 1 <= i < |t.order|
    ensures t.tree[i - 1] == (t.order[ParentOf(g, t, i)], t.order[i])
    ensures HasEdge(g, t.order[ParentOf(g, t, i)], t.order[i])
    ensures forall k :: 0 <= k < ParentOf(g, t, i) ==> Finished(g, t.order[k], Nodes(t.order[..i]))
  {
    var k := i - 1;
    var prefix := t.order[..k + 1];
    assert Next(g, Breadth, prefix) == Some(t.tree[k]);
    var p := ParentIndex(g, Breadth, prefix).value;
    assert prefix[p] == t.order[p];
    ParentIndexSpec(g, Breadth, prefix);
    forall m | 0 <= m < p ensures Finished(g, t.order[m], Nodes(prefix)) {
      assert prefix[m] == t.order[m];
    }
  }

  /** Nodes visited earlier are extended no later: tree parents come in visit order. */
  lemma ParentsInOrder(g: Graph, t: Trace, i: nat, j: nat)
    requires Consistent(g, Breadth, t) && 1 <= i < j < |t.order|
    ensures ParentOf(g, t, i) <= ParentOf(g, t, j)
  {
    var pi, pj := ParentOf(g, t, i), ParentOf(g, t, j);
    var small, large := Nodes(t.order[..i]), Nodes(t.order[..j]);
    forall x | x in small ensures x in large {
      var m :| 0 <= m < i && t.order[..i][m] == x;
      assert t.order[..j][m] == x;
    }
    ParentEdge(g, t, i);
    forall m | 0 <= m < pi ensures Finished(g, t.order[m], large) {
      FinishedGrows(g, t.order[m], small, large);
    }
    var k := j - 1;
    var prefix := t.order[..k + 1];
    assert Next(g, Breadth, prefix) == Some(t.tree[k]);
    assert prefix[pj] == t.order[pj];
    assert !Finished(g, t.order[pj], large);
  }

  /** Levels never decrease along the first n+1 visited nodes. */
  lemma {:induction false} LevelsUpTo(g: Graph, t: Trace, n: nat)
    requires Consistent(g, Breadth, t) && n < |t.order|
    ensures forall a, b :: 0 <= a <= b <= n ==> Level(g, t, a) <= Level(g, t, b)
    decreases n
  {
    if n >= 1 {
      LevelsUpTo(g, t, n - 1);
      if n >= 2 {
        ParentsInOrder(g, t, n - 1, n);
        var p, q := ParentOf(g, t, n - 1), ParentOf(g, t, n);
        assert Level(g, t, p) <= Level(g, t, q);
      }
      assert Level(g, t, n - 1) <= Level(g, t, n);
      forall a, b | 0 <= a <= b <= n ensures Level(g, t, a) <= Level(g, t, b) {
        if b == n && a < n {
          assert Level(g, t, a) <= Level(g, t, n - 1);
        }
      }
    }
  }

  /** Following tree parents from order[i] back to the start node gives a walk of Level(i) edges. */
  lemma {:induction false} TreeWalk(g: Graph, t: Trace, i: nat) returns (p: seq<Node>)
    requires Consistent(g, Breadth, t) && i < |t.order|
    ensures IsWalkBetween(g, p, t.order[0], t.order[i]) && |p| == Level(g, t, i) + 1
    decreases i
  {
    if i == 0 {
      p := [t.order[0]];
    } else {
      var parent := ParentOf(g, t, i);
      var q := TreeWalk(g, t, parent);
      ParentEdge(g, t, i);
      WalkExtend(g, q, t.order[0], t.order[parent], t.order[i]);
      p := q + [t.order[i]];
    }
  }

  /** In the complete traversal, each neighbour of a visited node is visited at most one level deeper. */
  lemma EdgeLevel(g: Graph, s: Node, a: nat, w: Node)
    requires s < g.Size()
    requires a < |Traverse(g, Breadth, s).order| && HasEdge(g, Traverse(g, Breadth, s).order[a], w)
    ensures var t := Traverse(g, Breadth, s);
      w in Nodes(t.order) &&
      forall b :: 0 <= b < |t.order| && t.order[b] == w ==> Level(g, t, b) <= Level(g, t, a) + 1
  {
    var t := Traverse(g, Breadth, s);
    TraverseConsistent(g, Breadth, s);
    assert Finished(g, t.order[a], Nodes(t.order));
    assert w in Neighbors(g, t.order[a]);
    LevelsUpTo(g, t, |t.order| - 1);
    forall b | 0 <= b < |t.order| && t.order[b] == w ensures Level(g, t, b) <= Level(g, t, a) + 1 {
      if b > a {
        var parent := ParentOf(g, t, b);
        ParentEdge(g, t, b);
        var before := t.order[..b];
        forall k | 0 <= k < b ensures before[k] != w {
          assert before[k] == t.order[k];
        }
        assert w !in Nodes(before);
        assert !Finished(g, t.order[a], Nodes(before));
        assert parent <= a;
      }
    }
  }

  /** Every node of a walk from the start node is visited no deeper than its position on the walk. */
  lemma {:induction false} WalkLevels(g: Graph, s: Node, p: seq<Node>, m: nat)
    requires s < g.Size() && IsWalk(g, p) && p[0] == s && m < |p|
    ensures var t := Traverse(g, Breadth, s);
      p[m] in Nodes(t.order) &&
      forall b :: 0 <= b < |t.order| && t.order[b] == p[m] ==> Level(g, t, b) <= m
    decreases m
  {
    var t := Traverse(g, Breadth, s);
    TraverseConsistent(g, Breadth, s);
    if m == 0 {
      forall b | 0 <= b < |t.order| && t.order[b] == p[0] ensures Level(g, t, b) <= 0 {
        assert t.order[b] == t.order[0];
      }
      assert p[0] in Nodes(t.order);
    } else {
      WalkLevels(g, s, p, m - 1);
      var a :| 0 <= a < |t.order| && t.order[a] == p[m - 1];
      assert HasEdge(g, p[m - 1], p[m]);
      EdgeLevel(g, s, a, p[m]);
    }
  }

  /**
    Level(i) is the hop distance of order[i]: a walk of that many edges from the start node
    exists and none is shorter.
  */
  lemma BfsLevelIsHops(g: Graph, s: Node, i: nat)
    requires s < g.Size() && i < |Traverse(g, Breadth, s).order|
    ensures var t := Traverse(g, Breadth, s);
      (exists p :: IsWalkBetween(g, p, s, t.order[i]) && |p| == Level(g, t, i) + 1) &&
      (forall p :: IsWalkBetween(g, p, s, t.order[i]) ==> Level(g, t, i) <= |p| - 1)
  {
    var t := Traverse(g, Breadth, s);
    TraverseConsistent(g, Breadth, s);
    var tree := TreeWalk(g, t, i);
    forall p | IsWalkBetween(g, p, s, t.order[i]) ensures Level(g, t, i) <= |p| - 1 {
      WalkLevels(g, s, p, |p| - 1);
    }
  }

  /** Breadth-first order is by non-decreasing hop distance. */
  lemma BfsLevelsInOrder(g: Graph, s: Node, i: nat, j: nat)
    requires s < g.Size() && i <= j < |Traverse(g, Breadth, s).order|
    ensures Level(g, Traverse(g, Breadth, s), i) <= Level(g, Traverse(g, Breadth, s), j)
  {
    var t := Traverse(g, Breadth, s);
    TraverseConsistent(g, Breadth, s);
    LevelsUpTo(g, t, |t.order| - 1);
  }
}
