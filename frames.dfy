/**
  The frame descriptions built by `generate_frames_bfs_from_matrix`,
  `generate_frames_dfs_from_matrix`, `generate_frames_dijkstra_from_matrix` and
  `create_graph_frame_dotty` in `elements/pl-graph-animate/graph-animate.py`.

  A frame is the graphviz drawing the source renders to a PNG: a fresh copy of the plain
  graph whose nodes, edges (under their keys, so an undirected edge is found from either end)
  and graph carry the attributes the generator set on them. Rendering is not modelled.
*/
module Frames {
  import opened Wrappers
  import opened Graphs
  import opened Text
  import opened Traversal
  import opened ShortestPaths

  /** The graphviz attributes the generators set: color, style, fillcolor, penwidth, label, labelloc, size, dpi. */
  datatype Attr = Color | Style | FillColor | PenWidth | Label | LabelLoc | Size | Dpi

  /** Attribute values by name. */
  type Attrs = map<Attr, string>

  /** A styled copy of the graph: the attributes of each node, of each edge and of the graph. */
  datatype Drawing = Drawing(nodes: map<Node, Attrs>, edges: map<Edge, Attrs>, graph: Attrs)

  /** A frame: a styled graph, or a graph given as DOT text with graph attributes set over its own. */
  datatype Frame = Drawn(drawing: Drawing) | FromDot(dot: string, attrs: Attrs)

  /** The size every frame is drawn at (the generators' default, the only one `render` uses). */
  const FrameSize: string := "5,5"
  const FrameDpi: string := "300"

  // ---------------------------------------------------------------- attribute setters

  function SetRed(a: Attrs): Attrs {
    a[Color := "red"][Style := "filled"][FillColor := "red"]
  }

  function SetBlue(a: Attrs): Attrs {
    a[Color := "blue"][PenWidth := "2.5"]
  }

  function SetCaption(a: Attrs, text: string): Attrs {
    a[Label := text][LabelLoc := "top"]
  }

  function SetSize(a: Attrs): Attrs {
    a[Size := FrameSize][Dpi := FrameDpi]
  }

  /** The weight label of an edge: the weight written out as an integer. */
  function WeightLabel(g: Graph, e: Edge): string {
    IntToString(Weight(g, e.0, e.1))
  }

  lemma SetRedTwice(a: Attrs)
    ensures SetRed(SetRed(a)) == SetRed(a)
  {
  }

  lemma SetBlueTwice(a: Attrs)
    ensures SetBlue(SetBlue(a)) == SetBlue(a)
  {
  }

  // ---------------------------------------------------------------- reading a drawing

  predicate IsRed(a: Attrs) {
    Color in a && a[Color] == "red" && Style in a && a[Style] == "filled" &&
    FillColor in a && a[FillColor] == "red"
  }

  predicate IsBlue(a: Attrs) {
    Color in a && a[Color] == "blue" && PenWidth in a && a[PenWidth] == "2.5"
  }

  /** The nodes drawn filled red. */
  function FilledNodes(d: Drawing): set<Node> {
    set v | v in d.nodes && IsRed(d.nodes[v])
  }

  /** The edges drawn thick and blue. */
  function ThickEdges(d: Drawing): set<Edge> {
    set e | e in d.edges && IsBlue(d.edges[e])
  }

  /** The caption drawn at the top, if any. */
  function CaptionOf(d: Drawing): Option<string> {
    if Label in d.graph && LabelLoc in d.graph && d.graph[LabelLoc] == "top" then Some(d.graph[Label]) else None
  }

  function LabelOf(d: Drawing, e: Edge): Option<string> {
    if e in d.edges && Label in d.edges[e] then Some(d.edges[e][Label]) else None
  }

  predicate Sized(d: Drawing) {
    Size in d.graph && d.graph[Size] == FrameSize && Dpi in d.graph && d.graph[Dpi] == FrameDpi
  }

  // ---------------------------------------------------------------- what a frame shows

  /**
    The graph as handed to graphviz: every node and every edge. `to_agraph` also copies each
    edge's `weight` attribute; it is left out because no frame draws it.
  */
  function Plain(g: Graph): Drawing {
    Drawing(map v | v in Range(g.Size()) :: map[], map e | e in Edges(g) :: map[], map[])
  }

  /**
    A frame of the matrix generators: the filled nodes red, the thick edges blue, the caption
    at the top if there is one, every edge labelled with its weight if asked, and the size.
  */
  function Styled(g: Graph, filled: set<Node>, thick: set<Edge>, caption: Option<string>, showWeights: bool): Drawing {
    Drawing(
      map v | v in Range(g.Size()) :: if v in filled then SetRed(map[]) else map[],
      map e | e in Edges(g) ::
        var a := if e in thick then SetBlue(map[]) else map[];
        if showWeights then a[Label := WeightLabel(g, e)] else a,
      SetSize(if caption.Some? then SetCaption(map[], caption.value) else map[]))
  }

  /** Reading a styled frame back gives exactly what it was styled with. */
  lemma StyledShows(g: Graph, filled: set<Node>, thick: set<Edge>, caption: Option<string>, showWeights: bool)
    requires forall v :: v in filled ==> v < g.Size()
    requires thick <= Edges(g)
    ensures var d := Styled(g, filled, thick, caption, showWeights);
      FilledNodes(d) == filled && ThickEdges(d) == thick && CaptionOf(d) == caption && Sized(d) &&
      forall e :: e in Edges(g) ==> LabelOf(d, e) == if showWeights then Some(WeightLabel(g, e)) else None
  {
    StyledNodes(g, filled, thick, caption, showWeights);
    StyledEdges(g, filled, thick, caption, showWeights);
    StyledLabels(g, filled, thick, caption, showWeights);
  }

  lemma StyledNodes(g: Graph, filled: set<Node>, thick: set<Edge>, caption: Option<string>, showWeights: bool)
    requires forall v :: v in filled ==> v < g.Size()
    ensures FilledNodes(Styled(g, filled, thick, caption, showWeights)) == filled
  {
    var d := Styled(g, filled, thick, caption, showWeights);
    forall v | v in filled ensures v in FilledNodes(d) {
      assert v in d.nodes && d.nodes[v] == SetRed(map[]);
    }
  }

  lemma StyledLabels(g: Graph, filled: set<Node>, thick: set<Edge>, caption: Option<string>, showWeights: bool)
    ensures var d := Styled(g, filled, thick, caption, showWeights);
      forall e :: e in Edges(g) ==> LabelOf(d, e) == if showWeights then Some(WeightLabel(g, e)) else None
  {
  }

  lemma StyledEdges(g: Graph, filled: set<Node>, thick: set<Edge>, caption: Option<string>, showWeights: bool)
    requires thick <= Edges(g)
    ensures ThickEdges(Styled(g, filled, thick, caption, showWeights)) == thick
  {
    var d := Styled(g, filled, thick, caption, showWeights);
    forall e | e in thick ensures e in ThickEdges(d) {
      assert e in d.edges;
    }
  }

  // ---------------------------------------------------------------- the generators' attribute loops

  /** m with the nodes of filled styled red. */
  function PaintedNodes(m: map<Node, Attrs>, filled: set<Node>): map<Node, Attrs> {
    map v | v in m :: if v in filled then SetRed(m[v]) else m[v]
  }

  /** m with the edges of thick styled blue. */
  function PaintedEdges(m: map<Edge, Attrs>, thick: set<Edge>): map<Edge, Attrs> {
    map e | e in m :: if e in thick then SetBlue(m[e]) else m[e]
  }

  /** m with the edges of labels labelled with their weights. */
  function LabelledOn(g: Graph, m: map<Edge, Attrs>, labels: set<Edge>): map<Edge, Attrs> {
    map e | e in m :: if e in labels then m[e][Label := WeightLabel(g, e)] else m[e]
  }

  /** m with every edge of g labelled with its weight. */
  function Labelled(g: Graph, m: map<Edge, Attrs>): map<Edge, Attrs> {
    LabelledOn(g, m, Edges(g))
  }

  lemma LabelStep(g: Graph, m: map<Edge, Attrs>, labels: set<Edge>, e: Edge)
    requires e in m && e !in labels
    ensures LabelledOn(g, m, labels)[e := m[e][Label := WeightLabel(g, e)]] == LabelledOn(g, m, labels + {e})
  {
  }

  /** The keys of a list of edges. */
  function KeysOf(g: Graph, es: seq<Edge>): set<Edge> {
    set k | 0 <= k < |es| :: Key(g, es[k].0, es[k].1)
  }

  lemma KeysOfAppend(g: Graph, es: seq<Edge>, k: nat)
    requires k < |es|
    ensures KeysOf(g, es[..k + 1]) == KeysOf(g, es[..k]) + {Key(g, es[k].0, es[k].1)}
  {
    var a, b := es[..k + 1], es[..k];
    forall x | x in KeysOf(g, a) ensures x in KeysOf(g, b) + {Key(g, es[k].0, es[k].1)} {
      var m :| 0 <= m < |a| && x == Key(g, a[m].0, a[m].1);
      if m < k {
        assert a[m] == b[m];
      }
    }
    forall x | x in KeysOf(g, b) ensures x in KeysOf(g, a) {
      var m :| 0 <= m < |b| && x == Key(g, b[m].0, b[m].1);
      assert a[m] == b[m];
    }
    assert Key(g, a[k].0, a[k].1) in KeysOf(g, a);
  }

  /** Styles the listed nodes red, one after the other (a node listed twice looks the same). */
  method PaintNodes(d: Drawing, nodes: seq<Node>) returns (r: Drawing)
    requires forall k :: 0 <= k < |nodes| ==> nodes[k] in d.nodes
    ensures r == d.(nodes := PaintedNodes(d.nodes, Nodes(nodes)))
  {
    r := d;
    var k := 0;
    while k < |nodes|
      invariant k <= |nodes|
      invariant r == d.(nodes := PaintedNodes(d.nodes, Nodes(nodes[..k])))
    {
      var v := nodes[k];
      NodesAppend(nodes[..k], v);
      assert nodes[..k + 1] == nodes[..k] + [v];
      SetRedTwice(d.nodes[v]);
      r := r.(nodes := r.nodes[v := SetRed(r.nodes[v])]);
      k := k + 1;
    }
    assert nodes[..k] == nodes;
  }

  /** Styles the nodes of a set red, in any order. */
  method PaintNodeSet(d: Drawing, nodes: set<Node>) returns (r: Drawing)
    requires nodes <= d.nodes.Keys
    ensures r == d.(nodes := PaintedNodes(d.nodes, nodes))
  {
    r := d;
    var rest := nodes;
    while rest != {}
      invariant rest <= nodes
      invariant r == d.(nodes := PaintedNodes(d.nodes, nodes - rest))
      decreases |rest|
    {
      var v :| v in rest;
      r := r.(nodes := r.nodes[v := SetRed(r.nodes[v])]);
      rest := rest - {v};
    }
  }

  /** Styles the listed edges blue, each found under its key. */
  method PaintEdges(g: Graph, d: Drawing, es: seq<Edge>) returns (r: Drawing)
    requires forall k :: 0 <= k < |es| ==> Key(g, es[k].0, es[k].1) in d.edges
    ensures r == d.(edges := PaintedEdges(d.edges, KeysOf(g, es)))
  {
    r := d;
    var k := 0;
    while k < |es|
      invariant k <= |es|
      invariant r == d.(edges := PaintedEdges(d.edges, KeysOf(g, es[..k])))
    {
      var e := Key(g, es[k].0, es[k].1);
      KeysOfAppend(g, es, k);
      SetBlueTwice(d.edges[e]);
      r := r.(edges := r.edges[e := SetBlue(r.edges[e])]);
      k := k + 1;
    }
    assert es[..k] == es;
  }

  /** Labels every edge of g with its weight (the loop over `G.edges(data=True)`). */
  method LabelEdges(g: Graph, d: Drawing) returns (r: Drawing)
    requires Edges(g) <= d.edges.Keys
    ensures r == d.(edges := Labelled(g, d.edges))
  {
    r := d;
    var rest := Edges(g);
    while rest != {}
      invariant rest <= Edges(g)
      invariant r == d.(edges := LabelledOn(g, d.edges, Edges(g) - rest))
      decreases |rest|
    {
      var e :| e in rest;
      LabelStep(g, d.edges, Edges(g) - rest, e);
      assert Edges(g) - rest + {e} == Edges(g) - (rest - {e});
      r := r.(edges := r.edges[e := r.edges[e][Label := WeightLabel(g, e)]]);
      rest := rest - {e};
    }
    assert Edges(g) - rest == Edges(g);
  }

  /** The caption, the weight labels and the size, set after the highlighting. */
  function Annotated(g: Graph, d: Drawing, caption: Option<string>, showWeights: bool): Drawing {
    Drawing(d.nodes, if showWeights then Labelled(g, d.edges) else d.edges,
            SetSize(if caption.Some? then SetCaption(d.graph, caption.value) else d.graph))
  }

  method Annotate(g: Graph, d: Drawing, caption: Option<string>, showWeights: bool) returns (r: Drawing)
    requires Edges(g) <= d.edges.Keys
    ensures r == Annotated(g, d, caption, showWeights)
  {
    r := d;
    if caption.Some? {
      r := r.(graph := SetCaption(r.graph, caption.value));
    }
    if showWeights {
      r := LabelEdges(g, r);
    }
    r := r.(graph := SetSize(r.graph));
  }

  /** Highlighting a fresh copy of the graph and annotating it gives the styled frame. */
  lemma PaintingIsStyled(g: Graph, filled: set<Node>, thick: set<Edge>, caption: Option<string>, showWeights: bool)
    ensures Annotated(g, Drawing(PaintedNodes(Plain(g).nodes, filled), PaintedEdges(Plain(g).edges, thick), map[]),
                      caption, showWeights) == Styled(g, filled, thick, caption, showWeights)
  {
    var st := Styled(g, filled, thick, caption, showWeights);
    assert PaintedNodes(Plain(g).nodes, filled) == st.nodes;
    PaintedEdgesStyled(g, thick, showWeights);
  }

  lemma PaintedEdgesStyled(g: Graph, thick: set<Edge>, showWeights: bool)
    ensures var m := PaintedEdges(Plain(g).edges, thick);
      (if showWeights then Labelled(g, m) else m) == Styled(g, {}, thick, None, showWeights).edges
  {
  }

  // ---------------------------------------------------------------- breadth- and depth-first frames

  function StepCaption(i: nat, v: Node, mode: Mode): string {
    "Step " + NatToString(i) + ": Current Node " + NatToString(v) + (if mode == Breadth then " (BFS)" else " (DFS)")
  }

  /**
    Frame i (counted from 1) of a traversal: the first i visited nodes filled, the first i-1
    tree edges thick, and the caption naming the node visited at step i.
  */
  function TraversalFrame(g: Graph, mode: Mode, t: Trace, i: nat, showSteps: bool, showWeights: bool): Drawing
    requires 1 <= i <= |t.order| && |t.tree| == |t.order| - 1
  {
    Styled(g, Nodes(t.order[..i]), KeysOf(g, t.tree[..i - 1]),
           if showSteps then Some(StepCaption(i, t.order[i - 1], mode)) else None, showWeights)
  }

  /** Every tree edge is an edge of the graph, and a new one: no earlier tree edge has its key. */
  lemma TreeKeys(g: Graph, mode: Mode, t: Trace, k: nat)
    requires Consistent(g, mode, t) && k < |t.tree|
    ensures Key(g, t.tree[k].0, t.tree[k].1) in Edges(g)
    ensures Key(g, t.tree[k].0, t.tree[k].1) !in KeysOf(g, t.tree[..k])
  {
    TreeEdges(g, mode, t, k);
    var e := Key(g, t.tree[k].0, t.tree[k].1);
    var prefix := t.order[..k + 1];
    forall j | 0 <= j <= k ensures prefix[j] != t.order[k + 1] {
      assert prefix[j] == t.order[j];
    }
    forall m | 0 <= m < k ensures Key(g, t.tree[..k][m].0, t.tree[..k][m].1) != e {
      TreeEdges(g, mode, t, m);
      assert t.tree[..k][m] == t.tree[m];
      var a :| 0 <= a < m + 1 && t.order[..m + 1][a] == t.tree[m].0;
      assert prefix[a] == t.tree[m].0 && prefix[m + 1] == t.tree[m].1;
    }
  }

  lemma {:induction false} TreeKeysCount(g: Graph, mode: Mode, t: Trace, j: nat)
    requires Consistent(g, mode, t) && j <= |t.tree|
    ensures |KeysOf(g, t.tree[..j])| == j
  {
    if j > 0 {
      TreeKeysCount(g, mode, t, j - 1);
      TreeKeys(g, mode, t, j - 1);
      KeysOfAppend(g, t.tree, j - 1);
    }
  }

  lemma PrefixDistinct(xs: seq<Node>, n: nat, i: nat)
    requires Distinct(xs) && Below(xs, n) && i <= |xs|
    ensures Distinct(xs[..i]) && Below(xs[..i], n)
  {
  }

  /** Draws frame i of a traversal the way the loop body does: copy, fill, thicken, annotate. */
  method DrawTraversalFrame(g: Graph, mode: Mode, t: Trace, i: nat, showSteps: bool, showWeights: bool) returns (d: Drawing)
    requires Consistent(g, mode, t) && 1 <= i <= |t.order|
    ensures d == TraversalFrame(g, mode, t, i, showSteps, showWeights)
  {
    var caption := if showSteps then Some(StepCaption(i, t.order[i - 1], mode)) else None;
    forall k | 0 <= k < i ensures t.order[..i][k] in Plain(g).nodes {
      assert t.order[..i][k] == t.order[k];
    }
    var es := t.tree[..i - 1];
    forall k | 0 <= k < i - 1 ensures Key(g, es[k].0, es[k].1) in Plain(g).edges {
      assert es[k] == t.tree[k];
      TreeKeys(g, mode, t, k);
    }
    d := Plain(g);
    d := PaintNodes(d, t.order[..i]);
    d := PaintEdges(g, d, t.tree[..i - 1]);
    d := Annotate(g, d, caption, showWeights);
    PaintingIsStyled(g, Nodes(t.order[..i]), KeysOf(g, t.tree[..i - 1]), caption, showWeights);
  }

  lemma TraversalFramesExtend(g: Graph, mode: Mode, t: Trace, frames: seq<Drawing>, d: Drawing, showSteps: bool, showWeights: bool)
    requires |frames| < |t.order| && |t.tree| == |t.order| - 1
    requires forall j :: 0 <= j < |frames| ==> frames[j] == TraversalFrame(g, mode, t, j + 1, showSteps, showWeights)
    requires d == TraversalFrame(g, mode, t, |frames| + 1, showSteps, showWeights)
    ensures forall j :: 0 <= j < |frames + [d]| ==> (frames + [d])[j] == TraversalFrame(g, mode, t, j + 1, showSteps, showWeights)
  {
    var next := frames + [d];
    forall j | 0 <= j < |next| ensures next[j] == TraversalFrame(g, mode, t, j + 1, showSteps, showWeights) {
      if j < |frames| {
        assert next[j] == frames[j];
      }
    }
  }

  /** One frame per visited node (the loop `for i in range(1, len(nodes) + 1)`). */
  method TraversalFrames(g: Graph, mode: Mode, t: Trace, showSteps: bool, showWeights: bool) returns (frames: seq<Drawing>)
    requires Consistent(g, mode, t)
    ensures |frames| == |t.order|
    ensures forall j :: 0 <= j < |frames| ==> frames[j] == TraversalFrame(g, mode, t, j + 1, showSteps, showWeights)
  {
    frames := [];
    var i := 1;
    while i <= |t.order|
      invariant 1 <= i <= |t.order| + 1 && |frames| == i - 1
      invariant forall j :: 0 <= j < |frames| ==> frames[j] == TraversalFrame(g, mode, t, j + 1, showSteps, showWeights)
    {
      var d := DrawTraversalFrame(g, mode, t, i, showSteps, showWeights);
      TraversalFramesExtend(g, mode, t, frames, d, showSteps, showWeights);
      frames := frames + [d];
      i := i + 1;
    }
  }

  /** `generate_frames_bfs_from_matrix`: one frame per node reachable from the start node. */
  method BfsFrames(m: seq<seq<int>>, directed: bool, start: Node, showSteps: bool, showWeights: bool)
    returns (frames: seq<Drawing>)
    requires IsSquare(m) && start < |m|
    ensures var g := Build(m, directed); var t := Traverse(g, Breadth, start);
      |t.tree| == |t.order| - 1 && |frames| == |t.order| == |ReachableSet(g, start)| &&
      forall j :: 0 <= j < |frames| ==> frames[j] == TraversalFrame(g, Breadth, t, j + 1, showSteps, showWeights)
  {
    var g := Build(m, directed);
    var order, tree := Bfs(g, start);
    TraverseConsistent(g, Breadth, start);
    TraverseVisitsReachable(g, Breadth, start);
    frames := TraversalFrames(g, Breadth, Trace(order, tree), showSteps, showWeights);
  }

  /** `generate_frames_dfs_from_matrix`: one frame per node reachable from the start node. */
  method DfsFrames(m: seq<seq<int>>, directed: bool, start: Node, showSteps: bool, showWeights: bool)
    returns (frames: seq<Drawing>)
    requires IsSquare(m) && start < |m|
    ensures var g := Build(m, directed); var t := Traverse(g, Depth, start);
      |t.tree| == |t.order| - 1 && |frames| == |t.order| == |ReachableSet(g, start)| &&
      forall j :: 0 <= j < |frames| ==> frames[j] == TraversalFrame(g, Depth, t, j + 1, showSteps, showWeights)
  {
    var g := Build(m, directed);
    var order, tree := Dfs(g, start);
    TraverseConsistent(g, Depth, start);
    TraverseVisitsReachable(g, Depth, start);
    frames := TraversalFrames(g, Depth, Trace(order, tree), showSteps, showWeights);
  }

  lemma TraversalFilled(g: Graph, mode: Mode, t: Trace, i: nat, showSteps: bool, showWeights: bool)
    requires Consistent(g, mode, t) && 1 <= i <= |t.order|
    ensures FilledNodes(TraversalFrame(g, mode, t, i, showSteps, showWeights)) == Nodes(t.order[..i])
  {
    forall v | v in Nodes(t.order[..i]) ensures v < g.Size() {
      var k :| 0 <= k < i && t.order[..i][k] == v;
    }
    StyledNodes(g, Nodes(t.order[..i]), KeysOf(g, t.tree[..i - 1]),
                if showSteps then Some(StepCaption(i, t.order[i - 1], mode)) else None, showWeights);
  }

  lemma TraversalThick(g: Graph, mode: Mode, t: Trace, i: nat, showSteps: bool, showWeights: bool)
    requires Consistent(g, mode, t) && 1 <= i <= |t.order|
    ensures ThickEdges(TraversalFrame(g, mode, t, i, showSteps, showWeights)) == KeysOf(g, t.tree[..i - 1])
  {
    var es := t.tree[..i - 1];
    forall e | e in KeysOf(g, es) ensures e in Edges(g) {
      var k :| 0 <= k < i - 1 && e == Key(g, es[k].0, es[k].1);
      assert es[k] == t.tree[k];
      TreeKeys(g, mode, t, k);
    }
    StyledEdges(g, Nodes(t.order[..i]), KeysOf(g, es),
                if showSteps then Some(StepCaption(i, t.order[i - 1], mode)) else None, showWeights);
  }

  /** Frame i shows exactly the first i visited nodes and the first i-1 tree edges. */
  lemma TraversalFrameShows(g: Graph, mode: Mode, t: Trace, i: nat, showSteps: bool, showWeights: bool)
    requires Consistent(g, mode, t) && 1 <= i <= |t.order|
    ensures var d := TraversalFrame(g, mode, t, i, showSteps, showWeights);
      FilledNodes(d) == Nodes(t.order[..i]) && |FilledNodes(d)| == i &&
      ThickEdges(d) == KeysOf(g, t.tree[..i - 1]) && |ThickEdges(d)| == i - 1
  {
    TraversalFilled(g, mode, t, i, showSteps, showWeights);
    TraversalThick(g, mode, t, i, showSteps, showWeights);
    PrefixDistinct(t.order, g.Size(), i);
    DistinctCard(t.order[..i]);
    TreeKeysCount(g, mode, t, i - 1);
  }

  /**
    Frame i carries the step caption exactly when steps are shown, every edge's weight exactly
    when weights are shown, and the fixed size and resolution.
  */
  lemma TraversalFrameStyle(g: Graph, mode: Mode, t: Trace, i: nat, showSteps: bool, showWeights: bool)
    requires 1 <= i <= |t.order| && |t.tree| == |t.order| - 1
    ensures var d := TraversalFrame(g, mode, t, i, showSteps, showWeights);
      CaptionOf(d) == (if showSteps then Some(StepCaption(i, t.order[i - 1], mode)) else None) && Sized(d) &&
      forall e :: e in Edges(g) ==> LabelOf(d, e) == if showWeights then Some(WeightLabel(g, e)) else None
  {
    StyledLabels(g, Nodes(t.order[..i]), KeysOf(g, t.tree[..i - 1]),
                 if showSteps then Some(StepCaption(i, t.order[i - 1], mode)) else None, showWeights);
  }

  /** Each frame adds exactly one new node and one new edge to the frame before it. */
  lemma TraversalFrameGrows(g: Graph, mode: Mode, t: Trace, i: nat, showSteps: bool, showWeights: bool)
    requires Consistent(g, mode, t) && 1 <= i < |t.order|
    ensures var d, d' := TraversalFrame(g, mode, t, i, showSteps, showWeights), TraversalFrame(g, mode, t, i + 1, showSteps, showWeights);
      var e := Key(g, t.tree[i - 1].0, t.tree[i - 1].1);
      FilledNodes(d') == FilledNodes(d) + {t.order[i]} && t.order[i] !in FilledNodes(d) &&
      ThickEdges(d') == ThickEdges(d) + {e} && e !in ThickEdges(d)
  {
    TraversalFilled(g, mode, t, i, showSteps, showWeights);
    TraversalFilled(g, mode, t, i + 1, showSteps, showWeights);
    TraversalThick(g, mode, t, i, showSteps, showWeights);
    TraversalThick(g, mode, t, i + 1, showSteps, showWeights);
    var prefix := t.order[..i];
    assert t.order[..i + 1] == prefix + [t.order[i]];
    NodesAppend(prefix, t.order[i]);
    forall k | 0 <= k < i ensures prefix[k] != t.order[i] {
      assert prefix[k] == t.order[k];
    }
    assert t.order[i] !in prefix;
    KeysOfAppend(g, t.tree, i - 1);
    TreeKeys(g, mode, t, i - 1);
  }

  /** Every thick edge is an edge of the graph joining two filled nodes. */
  lemma TraversalThickJoinsFilled(g: Graph, mode: Mode, t: Trace, i: nat, showSteps: bool, showWeights: bool)
    requires Consistent(g, mode, t) && 1 <= i <= |t.order|
    ensures var d := TraversalFrame(g, mode, t, i, showSteps, showWeights);
      forall e :: e in ThickEdges(d) ==> HasEdge(g, e.0, e.1) && e.0 in FilledNodes(d) && e.1 in FilledNodes(d)
  {
    var d := TraversalFrame(g, mode, t, i, showSteps, showWeights);
    TraversalFilled(g, mode, t, i, showSteps, showWeights);
    TraversalThick(g, mode, t, i, showSteps, showWeights);
    forall e | e in ThickEdges(d) ensures HasEdge(g, e.0, e.1) && e.0 in FilledNodes(d) && e.1 in FilledNodes(d) {
      var k :| 0 <= k < i - 1 && e == Key(g, t.tree[..i - 1][k].0, t.tree[..i - 1][k].1);
      assert t.tree[..i - 1][k] == t.tree[k];
      TreeEdges(g, mode, t, k);
      var a :| 0 <= a < k + 1 && t.order[a] == t.tree[k].0;
      assert t.order[..i][a] == t.tree[k].0 && t.order[..i][k + 1] == t.tree[k].1;
      if !g.directed {
        UndirectedSymmetric(g, t.tree[k].0, t.tree[k].1);
      }
    }
  }

  // ---------------------------------------------------------------- shortest-path frames

  function DijkstraCaption(t: Node): string {
    "Target Node " + NatToString(t) + ": Shortest Path (Dijkstra)"
  }

  /**
    The targets that get a frame, given how many targets the step counter has already counted:
    the counter counts every target, and only a target that makes it even is drawn.
  */
  function EvenSteps(targets: seq<Node>, count: nat): seq<Node>
    decreases |targets|
  {
    if targets == [] then []
    else (if (count + 1) % 2 == 0 then [targets[0]] else []) + EvenSteps(targets[1..], count + 1)
  }

  /** Starting from an even count, every second target is drawn: those at odd positions. */
  lemma {:induction false} EvenStepsAre(targets: seq<Node>, count: nat)
    ensures |EvenSteps(targets, count)| == (|targets| + count % 2) / 2
    ensures forall j :: 0 <= j < |EvenSteps(targets, count)| ==>
      EvenSteps(targets, count)[j] == targets[2 * j + 1 - count % 2]
    decreases |targets|
  {
    if targets != [] {
      var rest := targets[1..];
      EvenStepsAre(rest, count + 1);
      if count % 2 == 0 {
        assert (count + 1) % 2 == 1;
        assert EvenSteps(targets, count) == EvenSteps(rest, count + 1);
      } else {
        assert (count + 1) % 2 == 0;
        var r := EvenSteps(targets, count);
        assert r == [targets[0]] + EvenSteps(rest, count + 1);
        forall j | 0 < j < |r| ensures r[j] == targets[2 * j] {
          assert r[j] == EvenSteps(rest, count + 1)[j - 1] == rest[2 * j - 1];
        }
      }
    }
  }

  /** Every target of a run is stored with its path. */
  predicate PathsKnown(r: Run) {
    forall k :: 0 <= k < |r.order| ==> r.order[k] in r.paths
  }

  /** The target drawn in frame j: the (2j+2)-th node finalised. */
  function Target(r: Run, j: nat): Node
    requires 2 * j + 1 < |r.order|
  {
    r.order[2 * j + 1]
  }

  /** The consecutive pairs of a path. */
  function Pairs(p: seq<Node>): (r: seq<Edge>)
    ensures |r| == if p == [] then 0 else |p| - 1
    ensures forall k :: 0 <= k < |r| ==> r[k] == (p[k], p[k + 1])
  {
    if |p| <= 1 then [] else [(p[0], p[1])] + Pairs(p[1..])
  }

  /** The nodes of the paths of the targets drawn in frames 0..j. */
  function Highlighted(r: Run, j: nat): set<Node>
    requires PathsKnown(r) && 2 * j + 1 < |r.order|
  {
    (if j == 0 then {} else Highlighted(r, j - 1)) + Nodes(r.paths[Target(r, j)])
  }

  /**
    Frame j of the shortest-path animation: the nodes of every path drawn so far filled,
    the edges of the current target's path thick, and the caption naming the target.
  */
  function DijkstraFrame(g: Graph, r: Run, j: nat, showSteps: bool, showWeights: bool): Drawing
    requires PathsKnown(r) && 2 * j + 1 < |r.order|
  {
    Styled(g, Highlighted(r, j), KeysOf(g, Pairs(r.paths[Target(r, j)])),
           if showSteps then Some(DijkstraCaption(Target(r, j))) else None, showWeights)
  }

  /** Every target's path is a walk of the graph. */
  predicate WalksKnown(g: Graph, r: Run) {
    PathsKnown(r) && forall k :: 0 <= k < |r.order| ==> IsWalk(g, r.paths[r.order[k]])
  }

  lemma RunPaths(g: Graph, s: Node, r: Run)
    requires IsShortestPathRun(g, s, r)
    ensures WalksKnown(g, r)
    ensures forall k :: 0 <= k < |r.order| ==> IsWalkBetween(g, r.paths[r.order[k]], s, r.order[k])
  {
    forall k | 0 <= k < |r.order| ensures r.order[k] in r.paths && IsWalkBetween(g, r.paths[r.order[k]], s, r.order[k]) {
      assert r.order[k] in Nodes(r.order);
      assert ShortestIn(g, s, r, r.order[k]);
    }
  }

  /** The edges along a walk are edges of the graph. */
  lemma WalkKeys(g: Graph, p: seq<Node>)
    requires IsWalk(g, p)
    ensures forall k :: 0 <= k < |Pairs(p)| ==> Key(g, Pairs(p)[k].0, Pairs(p)[k].1) in Edges(g)
    ensures KeysOf(g, Pairs(p)) <= Edges(g)
  {
    var ps := Pairs(p);
    forall k | 0 <= k < |ps| ensures Key(g, ps[k].0, ps[k].1) in Edges(g) {
      assert HasEdge(g, p[k], p[k + 1]);
    }
  }

  lemma {:induction false} HighlightedBelow(g: Graph, r: Run, j: nat)
    requires WalksKnown(g, r) && 2 * j + 1 < |r.order|
    ensures forall v :: v in Highlighted(r, j) ==> v < g.Size()
  {
    if j > 0 {
      HighlightedBelow(g, r, j - 1);
    }
    var p := r.paths[Target(r, j)];
    assert IsWalk(g, p);
    forall v | v in Nodes(p) ensures v < g.Size() {
      var k :| 0 <= k < |p| && p[k] == v;
    }
  }

  /** Draws frame j the way the loop body does: fill what was visited, thicken the path, annotate. */
  method DrawDijkstraFrame(g: Graph, r: Run, j: nat, visited: set<Node>, showSteps: bool, showWeights: bool)
    returns (d: Drawing)
    requires WalksKnown(g, r) && 2 * j + 1 < |r.order| && visited == Highlighted(r, j)
    ensures d == DijkstraFrame(g, r, j, showSteps, showWeights)
  {
    var target := r.order[2 * j + 1];
    var path := r.paths[target];
    var caption := if showSteps then Some(DijkstraCaption(target)) else None;
    HighlightedBelow(g, r, j);
    assert IsWalk(g, path);
    WalkKeys(g, path);
    d := Plain(g);
    d := PaintNodeSet(d, visited);
    d := PaintEdges(g, d, Pairs(path));
    d := Annotate(g, d, caption, showWeights);
    PaintingIsStyled(g, visited, KeysOf(g, Pairs(path)), caption, showWeights);
  }

  lemma DijkstraFramesExtend(g: Graph, run: Run, frames: seq<Drawing>, d: Drawing, showSteps: bool, showWeights: bool)
    requires PathsKnown(run) && 2 * |frames| + 1 < |run.order|
    requires forall j :: 0 <= j < |frames| ==> frames[j] == DijkstraFrame(g, run, j, showSteps, showWeights)
    requires d == DijkstraFrame(g, run, |frames|, showSteps, showWeights)
    ensures forall j :: 0 <= j < |frames + [d]| ==> (frames + [d])[j] == DijkstraFrame(g, run, j, showSteps, showWeights)
  {
    var next := frames + [d];
    forall j | 0 <= j < |next| ensures next[j] == DijkstraFrame(g, run, j, showSteps, showWeights) {
      if j < |frames| {
        assert next[j] == frames[j];
      }
    }
  }

  /** The loop over the targets in finalisation order, drawing a frame at every even step. */
  method DrawTargets(g: Graph, run: Run, showSteps: bool, showWeights: bool) returns (frames: seq<Drawing>)
    requires WalksKnown(g, run)
    ensures |frames| == |run.order| / 2
    ensures forall j :: 0 <= j < |frames| ==> frames[j] == DijkstraFrame(g, run, j, showSteps, showWeights)
  {
    frames := [];
    var visitedNodes: set<Node> := {};
    var visitedEdges: set<Edge> := {};  // accumulated and never read, as in the generator
    var stepCount := 0;
    var k := 0;
    while k < |run.order|
      invariant 0 <= k <= |run.order| && stepCount == k
      invariant k == 2 * |frames| || k == 2 * |frames| + 1
      invariant forall j :: 0 <= j < |frames| ==> frames[j] == DijkstraFrame(g, run, j, showSteps, showWeights)
      invariant |frames| > 0 ==> visitedNodes == Highlighted(run, |frames| - 1)
      invariant |frames| == 0 ==> visitedNodes == {}
    {
      var target := run.order[k];
      stepCount := stepCount + 1;
      if stepCount % 2 == 0 {
        var j := |frames|;
        assert 2 * j + 1 == k;
        var path := run.paths[target];
        visitedNodes := visitedNodes + Nodes(path);
        assert visitedNodes == Highlighted(run, j);
        visitedEdges := visitedEdges + set e | e in Pairs(path);
        var d := DrawDijkstraFrame(g, run, j, visitedNodes, showSteps, showWeights);
        DijkstraFramesExtend(g, run, frames, d, showSteps, showWeights);
        frames := frames + [d];
      }
      k := k + 1;
    }
  }

  /**
    `generate_frames_dijkstra_from_matrix`: runs the shortest-path search from s and draws a
    frame for every second target, in the order the targets were finalised.
  */
  method DijkstraFrames(g: Graph, s: Node, showSteps: bool, showWeights: bool) returns (frames: seq<Drawing>, run: Run)
    requires NonNegative(g) && s < g.Size()
    ensures IsShortestPathRun(g, s, run) && PathsKnown(run)
    ensures |frames| == |run.order| / 2 == |ReachableSet(g, s)| / 2
    ensures forall j :: 0 <= j < |frames| ==> frames[j] == DijkstraFrame(g, run, j, showSteps, showWeights)
  {
    run := Dijkstra(g, s);
    RunStart(g, s, run);
    RunPaths(g, s, run);
    frames := DrawTargets(g, run, showSteps, showWeights);
  }

  /**
    The drawn targets are exactly every second finalised target: there are floor(R/2) of them
    for R reachable nodes, the start node is never one, and their distances do not decrease.
  */
  lemma DijkstraTargets(g: Graph, s: Node, r: Run)
    requires NonNegative(g) && IsShortestPathRun(g, s, r)
    ensures |EvenSteps(r.order, 0)| == |r.order| / 2 == |ReachableSet(g, s)| / 2
    ensures forall j :: 0 <= j < |r.order| / 2 ==> EvenSteps(r.order, 0)[j] == Target(r, j) && Target(r, j) != s
    ensures forall i, j :: 0 <= i < j < |r.order| / 2 ==>
      Target(r, i) in r.dist && Target(r, j) in r.dist && r.dist[Target(r, i)] <= r.dist[Target(r, j)]
    ensures forall j :: 0 <= j < |r.order| / 2 ==> Target(r, j) in r.dist && r.dist[Target(r, j)] >= r.dist[s]
  {
    EvenStepsAre(r.order, 0);
    RunStart(g, s, r);
    forall j | 0 <= j < |r.order| / 2 ensures Target(r, j) in r.dist && r.dist[Target(r, j)] >= r.dist[s] {
      assert r.order[2 * j + 1] in Nodes(r.order);
    }
    forall i, j | 0 <= i < j < |r.order| / 2
      ensures r.dist[Target(r, i)] <= r.dist[Target(r, j)]
    {
      assert r.order[2 * i + 1] in Nodes(r.order) && r.order[2 * j + 1] in Nodes(r.order);
    }
  }

  /** The nodes filled in frame j are exactly those on the paths of the targets drawn in frames 0..j. */
  lemma {:induction false} HighlightedUnion(r: Run, j: nat, v: Node)
    requires PathsKnown(r) && 2 * j + 1 < |r.order|
    ensures v in Highlighted(r, j) <==> exists i :: 0 <= i <= j && v in Nodes(r.paths[Target(r, i)])
  {
    if j > 0 {
      HighlightedUnion(r, j - 1, v);
    }
  }

  /** Filled nodes accumulate: a later frame fills every node an earlier one did. */
  lemma {:induction false} HighlightedGrows(r: Run, i: nat, j: nat)
    requires PathsKnown(r) && i <= j && 2 * j + 1 < |r.order|
    ensures Highlighted(r, i) <= Highlighted(r, j)
    decreases j
  {
    if i < j {
      HighlightedGrows(r, i, j - 1);
    }
  }

  lemma DijkstraFrameSets(g: Graph, r: Run, j: nat, showSteps: bool, showWeights: bool)
    requires WalksKnown(g, r) && 2 * j + 1 < |r.order|
    ensures var d := DijkstraFrame(g, r, j, showSteps, showWeights);
      FilledNodes(d) == Highlighted(r, j) && ThickEdges(d) == KeysOf(g, Pairs(r.paths[Target(r, j)]))
  {
    var t := Target(r, j);
    HighlightedBelow(g, r, j);
    WalkKeys(g, r.paths[t]);
    var caption := if showSteps then Some(DijkstraCaption(t)) else None;
    StyledNodes(g, Highlighted(r, j), KeysOf(g, Pairs(r.paths[t])), caption, showWeights);
    StyledEdges(g, Highlighted(r, j), KeysOf(g, Pairs(r.paths[t])), caption, showWeights);
  }

  /**
    Frame j fills the nodes of every path drawn so far, thickens exactly the edges of the
    current target's path, shows the caption exactly when steps are shown, labels every edge
    exactly when weights are shown, and carries the size.
  */
  lemma DijkstraFrameShows(g: Graph, r: Run, j: nat, showSteps: bool, showWeights: bool)
    requires WalksKnown(g, r) && 2 * j + 1 < |r.order|
    ensures var d, t := DijkstraFrame(g, r, j, showSteps, showWeights), Target(r, j);
      FilledNodes(d) == Highlighted(r, j) && ThickEdges(d) == KeysOf(g, Pairs(r.paths[t])) &&
      CaptionOf(d) == (if showSteps then Some(DijkstraCaption(t)) else None) && Sized(d) &&
      forall e :: e in Edges(g) ==> LabelOf(d, e) == if showWeights then Some(WeightLabel(g, e)) else None
  {
    var t := Target(r, j);
    DijkstraFrameSets(g, r, j, showSteps, showWeights);
    StyledLabels(g, Highlighted(r, j), KeysOf(g, Pairs(r.paths[t])),
                 if showSteps then Some(DijkstraCaption(t)) else None, showWeights);
  }

  /** The path drawn for a target is a shortest walk from the start node to it. */
  lemma TargetPathShortest(g: Graph, s: Node, r: Run, j: nat)
    requires IsShortestPathRun(g, s, r) && 2 * j + 1 < |r.order|
    ensures var t := Target(r, j);
      t in r.dist && t in r.paths && IsWalkBetween(g, r.paths[t], s, t) &&
      WalkWeight(g, r.paths[t]) == r.dist[t] && Lightest(g, s, t, r.dist[t])
  {
    var t := Target(r, j);
    assert t in Nodes(r.order);
    assert ShortestIn(g, s, r, t);
  }

  /** Every thick edge is an edge of the graph joining two filled nodes. */
  lemma DijkstraThickJoinsFilled(g: Graph, r: Run, j: nat, showSteps: bool, showWeights: bool)
    requires WalksKnown(g, r) && 2 * j + 1 < |r.order|
    ensures var d := DijkstraFrame(g, r, j, showSteps, showWeights);
      forall e :: e in ThickEdges(d) ==> HasEdge(g, e.0, e.1) && e.0 in FilledNodes(d) && e.1 in FilledNodes(d)
  {
    DijkstraFrameSets(g, r, j, showSteps, showWeights);
    var d := DijkstraFrame(g, r, j, showSteps, showWeights);
    var p := r.paths[Target(r, j)];
    var ps := Pairs(p);
    assert IsWalk(g, p);
    assert Nodes(p) <= Highlighted(r, j);
    forall e | e in ThickEdges(d) ensures HasEdge(g, e.0, e.1) && e.0 in FilledNodes(d) && e.1 in FilledNodes(d) {
      var k :| 0 <= k < |ps| && e == Key(g, ps[k].0, ps[k].1);
      assert HasEdge(g, p[k], p[k + 1]);
      assert p[k] in Nodes(p) && p[k + 1] in Nodes(p);
      if !g.directed {
        UndirectedSymmetric(g, p[k], p[k + 1]);
      }
    }
  }

  // ---------------------------------------------------------------- DOT frames

  /**
    `create_graph_frame_dotty`: one frame per (step, DOT text) entry, in the entries' order;
    the text is kept as it is and only the size and dpi are set over its graph attributes.
  */
  method DotFrames(entries: seq<(string, string)>) returns (frames: seq<Frame>)
    ensures |frames| == |entries|
    ensures forall k :: 0 <= k < |entries| ==> frames[k] == FromDot(entries[k].1, SetSize(map[]))
  {
    frames := [];
    var k := 0;
    while k < |entries|
      invariant k <= |entries| && |frames| == k
      invariant forall i :: 0 <= i < k ==> frames[i] == FromDot(entries[i].1, SetSize(map[]))
    {
      frames := frames + [FromDot(entries[k].1, SetSize(map[]))];
      k := k + 1;
    }
  }
}
