/**
  The example questions under `questions/pl-graph-animate-examples`: the adjacency matrix of
  README-Example1-DFS, on which the traversals are worked out step by step, and the step
  dictionaries of the two DOT-dictionary examples, rendered end to end.
*/
module Fixtures {
  import opened Wrappers
  import opened Graphs
  import opened Traversal
  import opened ShortestPaths
  import opened Frames
  import opened Text
  import opened Json
  import opened Element

  /** The matrix of README-Example1-DFS: the path 3-0-1-2-4, every edge of weight 1. */
  const ExampleMatrix: seq<seq<int>> :=
    [[0, 1, 0, 1, 0],
     [1, 0, 1, 0, 0],
     [0, 1, 0, 0, 1],
     [1, 0, 0, 0, 0],
     [0, 0, 1, 0, 0]]

  /** The undirected graph the element builds from it (directed-graph defaults to false). */
  function ExampleGraph(): Graph {
    Build(ExampleMatrix, false)
  }

  /** The example graph's entries, stated without the matrix literal. */
  predicate IsExample(g: Graph) {
    g.Size() == 5 && !g.directed &&
    forall i, j :: 0 <= i < 5 && 0 <= j < 5 ==>
      Entry(g, i, j) == if (i, j) in {(0, 1), (1, 0), (0, 3), (3, 0), (1, 2), (2, 1), (2, 4), (4, 2)} then 1 else 0
  }

  lemma ExampleGraphIsExample()
    ensures IsExample(ExampleGraph())
  {
  }

  lemma ExampleNeighbors0(g: Graph)
    requires IsExample(g)
    ensures Neighbors(g, 0) == [1, 3]
  {
    assert NeighborsFrom(g, 0, 5) == [];
    assert NeighborsFrom(g, 0, 4) == [];
    assert NeighborsFrom(g, 0, 3) == [3];
    assert NeighborsFrom(g, 0, 2) == [3];
    assert NeighborsFrom(g, 0, 1) == [1, 3];
    assert NeighborsFrom(g, 0, 0) == [1, 3];
  }

  lemma ExampleNeighbors1(g: Graph)
    requires IsExample(g)
    ensures Neighbors(g, 1) == [0, 2]
  {
    assert NeighborsFrom(g, 1, 5) == [];
    assert NeighborsFrom(g, 1, 4) == [];
    assert NeighborsFrom(g, 1, 3) == [];
    assert NeighborsFrom(g, 1, 2) == [2];
    assert NeighborsFrom(g, 1, 1) == [2];
    assert NeighborsFrom(g, 1, 0) == [0, 2];
  }

  lemma ExampleNeighbors2(g: Graph)
    requires IsExample(g)
    ensures Neighbors(g, 2) == [1, 4]
  {
    assert NeighborsFrom(g, 2, 5) == [];
    assert NeighborsFrom(g, 2, 4) == [4];
    assert NeighborsFrom(g, 2, 3) == [4];
    assert NeighborsFrom(g, 2, 2) == [4];
    assert NeighborsFrom(g, 2, 1) == [1, 4];
    assert NeighborsFrom(g, 2, 0) == [1, 4];
  }

  lemma ExampleNeighbors3(g: Graph)
    requires IsExample(g)
    ensures Neighbors(g, 3) == [0]
  {
    assert NeighborsFrom(g, 3, 5) == [];
    assert NeighborsFrom(g, 3, 4) == [];
    assert NeighborsFrom(g, 3, 3) == [];
    assert NeighborsFrom(g, 3, 2) == [];
    assert NeighborsFrom(g, 3, 1) == [];
    assert NeighborsFrom(g, 3, 0) == [0];
  }

  lemma ExampleNeighbors4(g: Graph)
    requires IsExample(g)
    ensures Neighbors(g, 4) == [2]
  {
    assert NeighborsFrom(g, 4, 5) == [];
    assert NeighborsFrom(g, 4, 4) == [];
    assert NeighborsFrom(g, 4, 3) == [];
    assert NeighborsFrom(g, 4, 2) == [2];
    assert NeighborsFrom(g, 4, 1) == [2];
    assert NeighborsFrom(g, 4, 0) == [2];
  }

  lemma ExampleNeighbors(g: Graph)
    requires IsExample(g)
    ensures Neighbors(g, 0) == [1, 3] && Neighbors(g, 1) == [0, 2] && Neighbors(g, 2) == [1, 4]
    ensures Neighbors(g, 3) == [0] && Neighbors(g, 4) == [2]
  {
    ExampleNeighbors0(g);
    ExampleNeighbors1(g);
    ExampleNeighbors2(g);
    ExampleNeighbors3(g);
    ExampleNeighbors4(g);
  }

  lemma Visited0()
    ensures Nodes([0]) == {0}
  {
    var o := [0];
    assert forall x :: x in o <==> x == 0;
  }

  lemma Visited01()
    ensures Nodes([0, 1]) == {0, 1}
  {
    var o := [0, 1];
    assert forall x :: x in o <==> x == 0 || x == 1;
  }

  lemma Visited013()
    ensures Nodes([0, 1, 3]) == {0, 1, 3}
  {
    var o := [0, 1, 3];
    assert forall x :: x in o <==> x == 0 || x == 1 || x == 3;
  }

  lemma Visited0132()
    ensures Nodes([0, 1, 3, 2]) == {0, 1, 2, 3}
  {
    var o := [0, 1, 3, 2];
    assert forall x :: x in o <==> x == 0 || x == 1 || x == 3 || x == 2;
  }

  lemma Visited01324()
    ensures Nodes([0, 1, 3, 2, 4]) == {0, 1, 2, 3, 4}
  {
    var o := [0, 1, 3, 2, 4];
    assert forall x :: x in o <==> x == 0 || x == 1 || x == 3 || x == 2 || x == 4;
  }

  lemma Visited012()
    ensures Nodes([0, 1, 2]) == {0, 1, 2}
  {
    var o := [0, 1, 2];
    assert forall x :: x in o <==> x == 0 || x == 1 || x == 2;
  }

  lemma Visited0124()
    ensures Nodes([0, 1, 2, 4]) == {0, 1, 2, 4}
  {
    var o := [0, 1, 2, 4];
    assert forall x :: x in o <==> x == 0 || x == 1 || x == 2 || x == 4;
  }

  lemma Visited01243()
    ensures Nodes([0, 1, 2, 4, 3]) == {0, 1, 2, 3, 4}
  {
    var o := [0, 1, 2, 4, 3];
    assert forall x :: x in o <==> x == 0 || x == 1 || x == 2 || x == 4 || x == 3;
  }

  /** A step of the reference traversal, with the extended prefix given outright. */
  lemma Advance(g: Graph, mode: Mode, order: seq<Node>, tree: seq<Edge>, e: Edge, order': seq<Node>, tree': seq<Edge>)
    requires Distinct(order) && Below(order, g.Size()) && Next(g, mode, order) == Some(e)
    requires order' == order + [e.1] && tree' == tree + [e]
    ensures Explore(g, mode, order, tree) == Explore(g, mode, order', tree')
  {
    ExploreStep(g, mode, order, tree, e);
  }

  lemma BreadthStep1(g: Graph)
    requires IsExample(g)
    ensures Next(g, Breadth, [0]) == Some((0, 1))
  {
    ExampleNeighbors(g);
    Visited0();
    NextIs(g, Breadth, [0], 0, Neighbors(g, 0), 0);
  }

  lemma BreadthStep2(g: Graph)
    requires IsExample(g)
    ensures Next(g, Breadth, [0, 1]) == Some((0, 3))
  {
    ExampleNeighbors(g);
    Visited01();
    NextIs(g, Breadth, [0, 1], 0, Neighbors(g, 0), 1);
  }

  lemma BreadthStep3(g: Graph)
    requires IsExample(g)
    ensures Next(g, Breadth, [0, 1, 3]) == Some((1, 2))
  {
    ExampleNeighbors(g);
    Visited013();
    assert Finished(g, 0, Nodes([0, 1, 3]));
    NextIs(g, Breadth, [0, 1, 3], 1, Neighbors(g, 1), 1);
  }

  lemma BreadthStep4(g: Graph)
    requires IsExample(g)
    ensures Next(g, Breadth, [0, 1, 3, 2]) == Some((2, 4))
  {
    ExampleNeighbors(g);
    Visited0132();
    assert Finished(g, 0, Nodes([0, 1, 3, 2]));
    assert Finished(g, 1, Nodes([0, 1, 3, 2]));
    assert Finished(g, 3, Nodes([0, 1, 3, 2]));
    NextIs(g, Breadth, [0, 1, 3, 2], 3, Neighbors(g, 2), 1);
  }

  lemma BreadthStep5(g: Graph)
    requires IsExample(g)
    ensures Next(g, Breadth, [0, 1, 3, 2, 4]).None?
  {
    ExampleNeighbors(g);
    Visited01324();
    assert Finished(g, 0, Nodes([0, 1, 3, 2, 4]));
    assert Finished(g, 1, Nodes([0, 1, 3, 2, 4]));
    assert Finished(g, 3, Nodes([0, 1, 3, 2, 4]));
    assert Finished(g, 2, Nodes([0, 1, 3, 2, 4]));
    assert Finished(g, 4, Nodes([0, 1, 3, 2, 4]));
    ParentIndexSpec(g, Breadth, [0, 1, 3, 2, 4]);
  }

  lemma BfsFrom5(g: Graph)
    requires IsExample(g)
    ensures Explore(g, Breadth, [0, 1, 3, 2, 4], [(0, 1), (0, 3), (1, 2), (2, 4)]) == Trace([0, 1, 3, 2, 4], [(0, 1), (0, 3), (1, 2), (2, 4)])
  {
    BreadthStep5(g);
  }

  lemma BfsFrom4(g: Graph)
    requires IsExample(g)
    ensures Explore(g, Breadth, [0, 1, 3, 2], [(0, 1), (0, 3), (1, 2)]) == Trace([0, 1, 3, 2, 4], [(0, 1), (0, 3), (1, 2), (2, 4)])
  {
    BreadthStep4(g);
    Advance(g, Breadth, [0, 1, 3, 2], [(0, 1), (0, 3), (1, 2)], (2, 4), [0, 1, 3, 2, 4], [(0, 1), (0, 3), (1, 2), (2, 4)]);
    BfsFrom5(g);
  }

  lemma BfsFrom3(g: Graph)
    requires IsExample(g)
    ensures Explore(g, Breadth, [0, 1, 3], [(0, 1), (0, 3)]) == Trace([0, 1, 3, 2, 4], [(0, 1), (0, 3), (1, 2), (2, 4)])
  {
    BreadthStep3(g);
    Advance(g, Breadth, [0, 1, 3], [(0, 1), (0, 3)], (1, 2), [0, 1, 3, 2], [(0, 1), (0, 3), (1, 2)]);
    BfsFrom4(g);
  }

  lemma BfsFrom2(g: Graph)
    requires IsExample(g)
    ensures Explore(g, Breadth, [0, 1], [(0, 1)]) == Trace([0, 1, 3, 2, 4], [(0, 1), (0, 3), (1, 2), (2, 4)])
  {
    BreadthStep2(g);
    Advance(g, Breadth, [0, 1], [(0, 1)], (0, 3), [0, 1, 3], [(0, 1), (0, 3)]);
    BfsFrom3(g);
  }

  lemma BfsFrom1(g: Graph)
    requires IsExample(g)
    ensures Explore(g, Breadth, [0], []) == Trace([0, 1, 3, 2, 4], [(0, 1), (0, 3), (1, 2), (2, 4)])
  {
    BreadthStep1(g);
    Advance(g, Breadth, [0], [], (0, 1), [0, 1], [(0, 1)]);
    BfsFrom2(g);
  }

  /** Breadth-first from node 0 visits 0, 1, 3, 2, 4, the order the example question expects. */
  lemma BfsExample(g: Graph)
    requires IsExample(g)
    ensures Traverse(g, Breadth, 0) == Trace([0, 1, 3, 2, 4], [(0, 1), (0, 3), (1, 2), (2, 4)])
  {
    BfsFrom1(g);
  }


  lemma DepthStep1(g: Graph)
    requires IsExample(g)
    ensures Next(g, Depth, [0]) == Some((0, 1))
  {
    ExampleNeighbors(g);
    Visited0();
    NextIs(g, Depth, [0], 0, Neighbors(g, 0), 0);
  }

  lemma DepthStep2(g: Graph)
    requires IsExample(g)
    ensures Next(g, Depth, [0, 1]) == Some((1, 2))
  {
    ExampleNeighbors(g);
    Visited01();
    NextIs(g, Depth, [0, 1], 1, Neighbors(g, 1), 1);
  }

  lemma DepthStep3(g: Graph)
    requires IsExample(g)
    ensures Next(g, Depth, [0, 1, 2]) == Some((2, 4))
  {
    ExampleNeighbors(g);
    Visited012();
    NextIs(g, Depth, [0, 1, 2], 2, Neighbors(g, 2), 1);
  }

  lemma DepthStep4(g: Graph)
    requires IsExample(g)
    ensures Next(g, Depth, [0, 1, 2, 4]) == Some((0, 3))
  {
    ExampleNeighbors(g);
    Visited0124();
    assert Finished(g, 1, Nodes([0, 1, 2, 4]));
    assert Finished(g, 2, Nodes([0, 1, 2, 4]));
    assert Finished(g, 4, Nodes([0, 1, 2, 4]));
    NextIs(g, Depth, [0, 1, 2, 4], 0, Neighbors(g, 0), 1);
  }

  lemma DepthStep5(g: Graph)
    requires IsExample(g)
    ensures Next(g, Depth, [0, 1, 2, 4, 3]).None?
  {
    ExampleNeighbors(g);
    Visited01243();
    assert Finished(g, 0, Nodes([0, 1, 2, 4, 3]));
    assert Finished(g, 1, Nodes([0, 1, 2, 4, 3]));
    assert Finished(g, 2, Nodes([0, 1, 2, 4, 3]));
    assert Finished(g, 4, Nodes([0, 1, 2, 4, 3]));
    assert Finished(g, 3, Nodes([0, 1, 2, 4, 3]));
    ParentIndexSpec(g, Depth, [0, 1, 2, 4, 3]);
  }

  lemma DfsFrom5(g: Graph)
    requires IsExample(g)
    ensures Explore(g, Depth, [0, 1, 2, 4, 3], [(0, 1), (1, 2), (2, 4), (0, 3)]) == Trace([0, 1, 2, 4, 3], [(0, 1), (1, 2), (2, 4), (0, 3)])
  {
    DepthStep5(g);
  }

  lemma DfsFrom4(g: Graph)
    requires IsExample(g)
    ensures Explore(g, Depth, [0, 1, 2, 4], [(0, 1), (1, 2), (2, 4)]) == Trace([0, 1, 2, 4, 3], [(0, 1), (1, 2), (2, 4), (0, 3)])
  {
    DepthStep4(g);
    Advance(g, Depth, [0, 1, 2, 4], [(0, 1), (1, 2), (2, 4)], (0, 3), [0, 1, 2, 4, 3], [(0, 1), (1, 2), (2, 4), (0, 3)]);
    DfsFrom5(g);
  }

  lemma DfsFrom3(g: Graph)
    requires IsExample(g)
    ensures Explore(g, Depth, [0, 1, 2], [(0, 1), (1, 2)]) == Trace([0, 1, 2, 4, 3], [(0, 1), (1, 2), (2, 4), (0, 3)])
  {
    DepthStep3(g);
    Advance(g, Depth, [0, 1, 2], [(0, 1), (1, 2)], (2, 4), [0, 1, 2, 4], [(0, 1), (1, 2), (2, 4)]);
    DfsFrom4(g);
  }

  lemma DfsFrom2(g: Graph)
    requires IsExample(g)
    ensures Explore(g, Depth, [0, 1], [(0, 1)]) == Trace([0, 1, 2, 4, 3], [(0, 1), (1, 2), (2, 4), (0, 3)])
  {
    DepthStep2(g);
    Advance(g, Depth, [0, 1], [(0, 1)], (1, 2), [0, 1, 2], [(0, 1), (1, 2)]);
    DfsFrom3(g);
  }

  lemma DfsFrom1(g: Graph)
    requires IsExample(g)
    ensures Explore(g, Depth, [0], []) == Trace([0, 1, 2, 4, 3], [(0, 1), (1, 2), (2, 4), (0, 3)])
  {
    DepthStep1(g);
    Advance(g, Depth, [0], [], (0, 1), [0, 1], [(0, 1)]);
    DfsFrom2(g);
  }

  /** Depth-first from node 0 visits 0, 1, 2, 4, 3, the order the example question expects. */
  lemma DfsExample(g: Graph)
    requires IsExample(g)
    ensures Traverse(g, Depth, 0) == Trace([0, 1, 2, 4, 3], [(0, 1), (1, 2), (2, 4), (0, 3)])
  {
    DfsFrom1(g);
  }

  /** Every node of the example is reachable from node 0. */
  lemma ExampleReachesAll(g: Graph)
    requires IsExample(g)
    ensures |ReachableSet(g, 0)| == 5
  {
    BfsExample(g);
    TraverseVisitsReachable(g, Breadth, 0);
  }

  /** With steps shown, the third depth-first frame is captioned with node 2. */
  lemma DfsExampleCaption(g: Graph)
    requires IsExample(g)
    ensures Traverse(g, Depth, 0) == Trace([0, 1, 2, 4, 3], [(0, 1), (1, 2), (2, 4), (0, 3)])
    ensures CaptionOf(TraversalFrame(g, Depth, Traverse(g, Depth, 0), 3, true, false)) ==
      Some("Step 3: Current Node 2 (DFS)")
  {
    DfsExample(g);
    var t := Traverse(g, Depth, 0);
    assert t.order[2] == 2;
    assert NatToString(3) == "3" && NatToString(2) == "2";
    var c := StepCaption(3, 2, Depth);
    assert c == "Step 3: Current Node 2 (DFS)";
    var d := TraversalFrame(g, Depth, t, 3, true, false);
    assert d.graph == SetSize(SetCaption(map[], c));
  }

  /**
    The three generators on the example: five breadth-first and five depth-first frames, and
    two shortest-path frames (for the second and fourth node finalised).
  */
  method ExampleFrameCounts(m: seq<seq<int>>) returns (bfs: nat, dfs: nat, dijkstra: nat)
    requires IsSquare(m) && NonNegative(Build(m, false)) && IsExample(Build(m, false))
    ensures bfs == 5 && dfs == 5 && dijkstra == 2
  {
    ExampleReachesAll(Build(m, false));
    var b := BfsFrames(m, false, 0, true, false);
    var d := DfsFrames(m, false, 0, true, false);
    var s, run := DijkstraFrames(Build(m, false), 0, true, false);
    bfs, dfs, dijkstra := |b|, |d|, |s|;
  }

  lemma ExampleMatrixIsExample()
    ensures IsSquare(ExampleMatrix) && NonNegative(Build(ExampleMatrix, false)) && IsExample(Build(ExampleMatrix, false))
  {
  }

  // ---------------------------------------------------------------- the DOT-dictionary examples

  /**
    A DOT description as the DOT-dictionary examples write it: a labelled, top-captioned digraph
    with one indented statement per line.
  */
  function DotText(caption: string, statements: seq<string>): string {
    "\n    digraph G {\n        label=\"" + caption + "\";\n        labelloc=\"top\";\n" +
    Lines(statements) + "    }\n    "
  }

  function Lines(statements: seq<string>): string {
    if statements == [] then "" else "        " + statements[0] + "\n" + Lines(statements[1..])
  }

  function VisitLabel(step: nat, node: nat, from: nat): string {
    "Step " + NatToString(step) + ": Visit Node " + NatToString(node) + " from Node " + NatToString(from)
  }

  /** Nodes 0..n-1 filled red. */
  function RedNodeLines(n: nat): seq<string> {
    seq(n, i requires 0 <= i < n => NatToString(i) + " [style=filled, fillcolor=red];")
  }

  /** The edges in order, the first `blue` of them blue and the rest black. */
  function EdgeLines(edges: seq<(nat, nat)>, blue: nat): seq<string> {
    seq(|edges|, i requires 0 <= i < |edges| =>
      NatToString(edges[i].0) + " -> " + NatToString(edges[i].1) +
      (if i < blue then " [color=blue];" else " [color=black];"))
  }

  function StepKey(step: nat): string {
    "step_" + NatToString(step)
  }

  /** The tree of README-Example1-DOTDictionary, whose first four breadth-first steps are drawn. */
  const Example1Edges: seq<(nat, nat)> := [(0, 1), (0, 2), (0, 3), (1, 4), (2, 5), (2, 6), (3, 7), (6, 8)]

  /** Step k (1 to 4) of README-Example1-DOTDictionary: node k-1 visited from 0. */
  function Example1Step(k: nat): string
    requires 1 <= k
  {
    DotText(VisitLabel(k, k - 1, 0), RedNodeLines(k) + EdgeLines(Example1Edges, k - 1))
  }

  /** The `bfs_dot_commands` dictionary of README-Example1-DOTDictionary, as JSON. */
  function Example1Dictionary(): Value {
    Obj(seq(4, k requires 0 <= k < 4 => (StepKey(k + 1), Str(Example1Step(k + 1)))))
  }

  /** The tree of README-Example2-DOTDictionary, drawn over five breadth-first steps. */
  const Example2Edges: seq<(nat, nat)> := [(0, 1), (0, 2), (1, 3), (2, 4)]

  /** The node each step of README-Example2-DOTDictionary visits from. */
  const Example2From: seq<nat> := [0, 0, 0, 1, 2]

  /** Step k (1 to 5) of README-Example2-DOTDictionary; its texts carry a blank line among the edges. */
  function Example2Step(k: nat): string
    requires 1 <= k <= 5
  {
    var edges := EdgeLines(Example2Edges, k - 1);
    var body := if k < 5 then edges + [""] else edges[..3] + [""] + edges[3..];
    DotText(VisitLabel(k, k - 1, Example2From[k - 1]), RedNodeLines(k) + body)
  }

  /** The `bfs_dot_commands` dictionary of README-Example2-DOTDictionary, as JSON. */
  function Example2Dictionary(): Value {
    Obj(seq(5, k requires 0 <= k < 5 => (StepKey(k + 1), Str(Example2Step(k + 1)))))
  }

  /** The element as the DOT examples use it: a dotty parameter under its name, every other attribute left out. */
  function DotElement(): Attributes {
    Attributes("dotty-commands-dictionary", Some("dotty"), None, None, None, None, None)
  }

  /** The DOT examples' element accepts any dictionary under its parameter name. */
  lemma DotElementAccepts(v: Value)
    requires v.Obj?
    ensures var r := CheckParameters(DotElement(), map["dotty-commands-dictionary" := v]);
      r.Ok? && r.value.name == "dotty-commands-dictionary" && r.value.kind == Dotty &&
      r.value.duration == DurationDefault
  {
    assert Lower(AlgorithmDefault) == AlgorithmDefault;
  }

  /**
    Rendering the DOT examples' element on a dictionary of DOT texts succeeds, with one frame
    per entry in order, shown for the default duration.
  */
  method RenderDotElement(v: Value) returns (r: Result<Animation>)
    requires v.Obj? && AllText(v.fields)
    ensures r.Ok? && r.value.duration == DurationDefault && ShowsDot(r.value.frames, v.fields)
  {
    DotElementAccepts(v);
    ghost var run;
    r, run := Render(DotElement(), map["dotty-commands-dictionary" := v]);
  }

  /**
    Rendering README-Example1-DOTDictionary gives its four steps as four frames, in dictionary
    order, each the step's DOT text drawn at size 5,5 and dpi 300, shown for the default duration.
  */
  method DotExample1() returns (r: Result<Animation>)
    ensures r.Ok? && r.value.duration == DurationDefault && |r.value.frames| == 4
    ensures forall k :: 0 <= k < 4 ==> r.value.frames[k] == FromDot(Example1Step(k + 1), SetSize(map[]))
  {
    r := RenderDotElement(Example1Dictionary());
  }

  /**
    Rendering README-Example2-DOTDictionary gives its five steps as five frames, in dictionary
    order, each the step's DOT text drawn at size 5,5 and dpi 300, shown for the default duration.
  */
  method DotExample2() returns (r: Result<Animation>)
    ensures r.Ok? && r.value.duration == DurationDefault && |r.value.frames| == 5
    ensures forall k :: 0 <= k < 5 ==> r.value.frames[k] == FromDot(Example2Step(k + 1), SetSize(map[]))
  {
    r := RenderDotElement(Example2Dictionary());
  }
}
