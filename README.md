# pl-graph-animate: a verified model of the frame generator

The `pl-graph-animate` element turns a graph into a short video. The element HTML names a
question parameter. That parameter holds either an adjacency matrix with an algorithm choice
(`dfs`, `bfs` or `dijkstra`) or a dictionary of DOT descriptions, one per step. The element
validates its attributes (`check_parameters`). It then builds one graphviz drawing per step,
renders each to a PNG and joins the PNGs into an MP4.

This project models everything before the rasterising and proves properties of it:

- **`Graphs`** (`graphs.dfy`). The graph `networkx` builds from the matrix. Nodes are
  0..N-1 and an entry that is not 0 is an edge. A directed graph keeps edge directions; an
  undirected graph has one edge per unordered pair. Neighbours come in ascending order. The
  module also defines walks, reachability, distinct sequences and node sets.
- **`Traversal`** (`traversal.dfy`). A reference definition of breadth- and depth-first
  traversal (`Traverse`). `Bfs` (a FIFO queue) and `Dfs` (a stack of neighbour iterators),
  written the way `nx.bfs_edges` and `nx.dfs_edges` work, are proved equal to it.
  Lemmas:
  - the traversal visits exactly the reachable nodes, each once;
  - the tree edges join visited nodes;
  - breadth-first extends the earliest unfinished node;
  - depth-first goes deeper whenever it can.
- **`Hops`** (`hops.dfy`). Depth in the breadth-first tree equals hop distance, and it never
  decreases along the breadth-first order.
- **`ShortestPaths`** (`dijkstra.dfy`). Single-source Dijkstra as `networkx` runs it. It
  finalises nodes in non-decreasing distance, and ties go to the node whose tentative distance
  was set first, the order of the library's heap counter. It also records the path that set
  each distance. The result is proved to be a shortest-path run: each path is a walk of that
  weight and no walk is lighter.
- **`Frames`** (`frames.dfy`). The drawings. A frame is a copy of the plain graph with these
  attribute maps per node, per edge and for the graph:
  - red fill for highlighted nodes;
  - blue, 2.5-wide pen for highlighted edges;
  - a top-anchored caption;
  - weight labels;
  - size `5,5` and dpi `300`.

  The generators paint in loops, as the source does. Each loop method is proved to produce the
  frame that a pure description (`TraversalFrame`, `DijkstraFrame`) states, and the lemmas
  about those descriptions give the highlighting properties. The DOT adapter keeps each text
  as it is and adds only size and dpi.
- **`Element`** (`element.dfy`). `check_parameters` works as a pure validator over attribute
  values already extracted, plus the JSON value of the named parameter. `Render` is the
  dispatch in `render`: validate, then run the chosen generator from node 0, or the DOT
  adapter.
- **`Fixtures`** (`fixtures.dfy`). The example questions, worked out:
  - breadth-first gives 0,1,3,2,4 on the README-Example1-DFS matrix;
  - depth-first gives 0,1,2,4,3;
  - that matrix gives 5, 5 and 2 frames;
  - the DOT examples, built statement by statement from their step dictionaries, render to 4 and 5 frames carrying those texts in order.
- **`Text`**, **`Json`**, **`Wrappers`**. Decimal formatting of integers, ASCII lower-casing,
  JSON values, and `Option`/`Result`.

## Model

| member | source | states |
|---|---|---|
| Graphs.Build | elements/pl-graph-animate/graph-animate.py:40-44 | the graph has one node per matrix row; directed, it has edge (i,j) exactly when M[i][j] is not 0, with weight M[i][j] |
| Graphs.UndirectedSymmetric | elements/pl-graph-animate/graph-animate.py:43-44 | an undirected graph has the same edges, weights and edge keys in both directions |
| Graphs.SymmetricMatrixEdges | elements/pl-graph-animate/graph-animate.py:43-44 | for a symmetric matrix the undirected graph has edge (i,j) exactly when M[i][j] is not 0, with weight M[i][j] |
| Graphs.EdgeWeightPositive | elements/pl-graph-animate/graph-animate.py:180-181 | with no negative entry, every edge Dijkstra can take weighs more than 0 |
| Graphs.Neighbors | elements/pl-graph-animate/graph-animate.py:49-50 | the neighbours listed for u are exactly the nodes u has an edge to |
| Graphs.NeighborsSorted | elements/pl-graph-animate/graph-animate.py:118-119 | neighbours are visited in ascending index order |
| Graphs.Edges | elements/pl-graph-animate/graph-animate.py:75-77 | the edge set holds every edge under its key and nothing else |
| Graphs.DistinctBound | elements/pl-graph-animate/graph-animate.py:54 | a visit order without repeats has at most N nodes, so the frame loop is bounded |
| Traversal.Traverse | elements/pl-graph-animate/graph-animate.py:49-50 | the reference traversal starts at the start node |
| Traversal.Bfs | elements/pl-graph-animate/graph-animate.py:49-50 | the queue-based search yields exactly the reference breadth-first visit order and tree edges |
| Traversal.Dfs | elements/pl-graph-animate/graph-animate.py:118-119 | the stack-based search yields exactly the reference depth-first preorder and tree edges |
| Traversal.TraverseConsistent | elements/pl-graph-animate/graph-animate.py:49-50 | each recorded step is the one the traversal rule prescribes, and at the end every visited node has no unvisited neighbour |
| Traversal.TraverseVisitsReachable | elements/pl-graph-animate/graph-animate.py:49-54 | the visit order starts at the start node, has no repeats, holds exactly the reachable nodes, and has one fewer tree edge than nodes |
| Traversal.TreeEdges | elements/pl-graph-animate/graph-animate.py:118-119 | tree edge k joins a node visited earlier to order[k+1] by an edge, and order[k+1] is the smallest unvisited neighbour of that node |
| Traversal.ParentIndexSpec | elements/pl-graph-animate/graph-animate.py:49 | the node extended next is the earliest (breadth-first) or latest (depth-first) visited node with an unvisited neighbour; there is none exactly when every visited node is finished |
| Traversal.BreadthExtendsEarliest | elements/pl-graph-animate/graph-animate.py:49-50 | breadth-first extends a node only once every node visited before it is finished |
| Traversal.DepthGoesDeeper | elements/pl-graph-animate/graph-animate.py:118-119 | depth-first extends the node it just visited whenever that node has an unvisited neighbour (preorder) |
| Hops.ParentsInOrder | elements/pl-graph-animate/graph-animate.py:49-50 | the breadth-first tree parents of later nodes are never earlier in the visit order |
| Hops.TreeWalk | elements/pl-graph-animate/graph-animate.py:50 | the tree path from the start node to order[i] is a walk of Level(i) edges |
| Hops.EdgeLevel | elements/pl-graph-animate/graph-animate.py:49-50 | a neighbour of a visited node is visited, at most one level deeper |
| Hops.WalkLevels | elements/pl-graph-animate/graph-animate.py:49-50 | each node of a walk from the start node has level no greater than its position on the walk |
| Hops.LevelsUpTo | elements/pl-graph-animate/graph-animate.py:49-50 | levels never decrease along any prefix of the breadth-first order |
| Hops.BfsLevelIsHops | elements/pl-graph-animate/graph-animate.py:49-50 | the breadth-first level of order[i] is its hop distance: a walk with that many edges exists and none is shorter |
| Hops.BfsLevelsInOrder | elements/pl-graph-animate/graph-animate.py:49-50 | breadth-first order is by non-decreasing hop distance |
| ShortestPaths.SelectMin | elements/pl-graph-animate/graph-animate.py:180-181 | the next node finalised is unfinalised and comes before every other unfinalised node in (tentative distance, push order); there is none exactly when all seen nodes are final |
| ShortestPaths.Dijkstra | elements/pl-graph-animate/graph-animate.py:180-181 | on non-negative weights the run visits exactly the reachable nodes, once each, start first, in non-decreasing distance; each path is a walk from the start of that weight and no walk is lighter |
| ShortestPaths.RunStart | elements/pl-graph-animate/graph-animate.py:180-188 | the start node is at distance 0, every distance is non-negative, and there is one target per reachable node |
| ShortestPaths.RunDistUnique | elements/pl-graph-animate/graph-animate.py:180 | any two shortest-path runs from the same node agree on every distance |
| Frames.StyledShows | elements/pl-graph-animate/graph-animate.py:57-81 | a styled frame fills exactly the given nodes and thickens exactly the given edges; it carries exactly the given caption, every edge's weight label when weights are shown, and the size and dpi |
| Frames.PaintNodes | elements/pl-graph-animate/graph-animate.py:57-61 | painting a list of nodes turns exactly the listed nodes red and leaves everything else as it was |
| Frames.PaintNodeSet | elements/pl-graph-animate/graph-animate.py:194-198 | painting a set of nodes in any order turns exactly those nodes red |
| Frames.PaintEdges | elements/pl-graph-animate/graph-animate.py:63-66 | painting a list of edges turns exactly their keys blue, whichever end an undirected edge is named from |
| Frames.LabelEdges | elements/pl-graph-animate/graph-animate.py:74-77 | every edge of the graph gets its weight as label, and only the labels change |
| Frames.Annotate | elements/pl-graph-animate/graph-animate.py:68-81 | after painting, the caption, weight labels, size and dpi are set as the annotated drawing states |
| Frames.PaintingIsStyled | elements/pl-graph-animate/graph-animate.py:55-81 | painting a fresh copy of the graph and annotating it gives the styled frame |
| Frames.TreeKeys | elements/pl-graph-animate/graph-animate.py:63-66 | each tree edge's key is an edge of the graph and differs from the keys of all earlier tree edges |
| Frames.TreeKeysCount | elements/pl-graph-animate/graph-animate.py:63 | the first j tree edges have j distinct keys |
| Frames.DrawTraversalFrame | elements/pl-graph-animate/graph-animate.py:55-81 | the loop body draws exactly frame i of the traversal |
| Frames.TraversalFrames | elements/pl-graph-animate/graph-animate.py:54-87 | there is one frame per visited node, and frame j is traversal frame j+1 |
| Frames.BfsFrames | elements/pl-graph-animate/graph-animate.py:40-89 | the breadth-first generator gives one frame per node reachable from the start, frame i showing visit step i |
| Frames.DfsFrames | elements/pl-graph-animate/graph-animate.py:107-153 | the depth-first generator gives one frame per node reachable from the start, frame i showing visit step i |
| Frames.TraversalFrameShows | elements/pl-graph-animate/graph-animate.py:57-66 | frame i fills exactly the first i visited nodes (i of them) and thickens exactly the first i-1 tree edges (i-1 of them) |
| Frames.TraversalFrameStyle | elements/pl-graph-animate/graph-animate.py:68-81 | frame i is captioned `Step i: Current Node v (BFS)` or `(DFS)` exactly when steps are shown, labels every edge exactly when weights are shown, and has size and dpi |
| Frames.TraversalFrameGrows | elements/pl-graph-animate/graph-animate.py:57-66 | each frame adds exactly one new filled node and one new thick edge to the frame before it |
| Frames.TraversalThickJoinsFilled | elements/pl-graph-animate/graph-animate.py:57-66 | every thick edge is an edge of the graph joining two filled nodes |
| Frames.EvenStepsAre | elements/pl-graph-animate/graph-animate.py:187-191 | counting every target and drawing only at even counts draws floor(R/2) targets, the 2nd, 4th, ... |
| Frames.Pairs | elements/pl-graph-animate/graph-animate.py:200-201 | a path of n nodes gives its n-1 consecutive pairs, in order |
| Frames.DrawDijkstraFrame | elements/pl-graph-animate/graph-animate.py:192-220 | the loop body draws exactly shortest-path frame j from the accumulated node set |
| Frames.DrawTargets | elements/pl-graph-animate/graph-animate.py:183-224 | the loop over all targets gives floor(R/2) frames, frame j being shortest-path frame j |
| Frames.DijkstraFrames | elements/pl-graph-animate/graph-animate.py:170-226 | the Dijkstra generator gives floor(R/2) frames for R reachable nodes, from a shortest-path run |
| Frames.DijkstraTargets | elements/pl-graph-animate/graph-animate.py:180-191 | the drawn targets are exactly the finalised targets at odd positions; the start node is never one; their distances never decrease and are at least the start's |
| Frames.HighlightedUnion | elements/pl-graph-animate/graph-animate.py:184-198 | frame j fills a node exactly when it lies on the path of a target drawn in frames 0..j |
| Frames.HighlightedGrows | elements/pl-graph-animate/graph-animate.py:194 | filled nodes accumulate: a later frame fills every node an earlier one does |
| Frames.DijkstraFrameShows | elements/pl-graph-animate/graph-animate.py:192-220 | frame j fills the accumulated path nodes and thickens only the current target's path edges; it is captioned `Target Node t: Shortest Path (Dijkstra)` exactly when steps are shown, labels every edge exactly when weights are shown, and has size and dpi |
| Frames.TargetPathShortest | elements/pl-graph-animate/graph-animate.py:181 | each drawn path runs from the start node to its target and is a shortest walk |
| Frames.DijkstraThickJoinsFilled | elements/pl-graph-animate/graph-animate.py:193-204 | every thick edge is an edge of the graph joining two filled nodes |
| Frames.DotFrames | elements/pl-graph-animate/graph-animate.py:238-248 | one frame per dictionary entry, in order; each is the entry's DOT text with size and dpi only |
| Element.DurationChecks | elements/pl-graph-animate/graph-animate.py:282-288 | the corrected duration check accepts exactly the positive floats; the written one also accepts NaN |
| Element.NaNDurationAccepted | elements/pl-graph-animate/graph-animate.py:284-286 | the check as written lets NaN through, although NaN is not positive |
| Element.CheckAcceptsIff | elements/pl-graph-animate/graph-animate.py:270-320 | parameters are accepted exactly when the name is non-empty, the type is known, the lower-cased algorithm is known, the duration is positive, and the parameter is a square 2-D array or a dictionary as the type demands |
| Element.CheckRejects | elements/pl-graph-animate/graph-animate.py:270-276 | a rejection is `Parameter validation failed: ` followed by one of the rule messages; an empty name gives the name message, and a valid name with an unknown type gives the type message naming that type |
| Element.CheckRejectsSettings | elements/pl-graph-animate/graph-animate.py:278-288 | with a valid name and type, an unknown lower-cased algorithm gives the algorithm message naming it; with a known algorithm as well, a duration that is not positive (or not a float) gives the duration message |
| Element.CheckRejectsParameter | elements/pl-graph-animate/graph-animate.py:302-323 | with every setting valid, a missing or non-square matrix parameter gives the matrix message, and a missing or non-dictionary dotty parameter gives the dotty message, each after the prefix |
| Element.CheckSettings | elements/pl-graph-animate/graph-animate.py:333-339 | what is accepted carries the named parameter, the lower-cased algorithm, the positive duration and the flags or their defaults |
| Element.AlgorithmCaseInsensitive | elements/pl-graph-animate/graph-animate.py:278 | writing the algorithm in lower case first does not change the verdict |
| Element.ToMatrix | elements/pl-graph-animate/graph-animate.py:342 | the numeric matrix is square and holds the array's entries |
| Element.TraversalAnimation | elements/pl-graph-animate/graph-animate.py:344-347 | the dfs and bfs branches animate the traversal from node 0 |
| Element.ShortestPathAnimation | elements/pl-graph-animate/graph-animate.py:348-349 | the dijkstra branch animates a shortest-path run from node 0 |
| Element.AnimateMatrix | elements/pl-graph-animate/graph-animate.py:341-351 | the algorithm dispatch succeeds exactly on usable matrices and then shows the chosen algorithm from node 0 |
| Element.AnimateDot | elements/pl-graph-animate/graph-animate.py:354-356 | the dotty branch succeeds exactly when every description is text, giving one frame per entry |
| Element.Render | elements/pl-graph-animate/graph-animate.py:328-356 | a validation failure is returned as it is; otherwise the chosen generator's frames are returned with the validated duration |
| Fixtures.ExampleMatrixIsExample | questions/pl-graph-animate-examples/README-Example1-DFS/server.py:5-9 | the example matrix is square and non-negative, and its graph has exactly the edges 0-1, 0-3, 1-2, 2-4 of weight 1 |
| Fixtures.BfsExample | questions/pl-graph-animate-examples/README-Example1-DFS/server.py:5-9 | breadth-first from 0 on the example visits 0,1,3,2,4 through tree edges (0,1),(0,3),(1,2),(2,4) |
| Fixtures.DfsExample | questions/pl-graph-animate-examples/README-Example1-DFS/server.py:5-9 | depth-first from 0 on the example visits 0,1,2,4,3 through tree edges (0,1),(1,2),(2,4),(0,3) |
| Fixtures.ExampleReachesAll | questions/pl-graph-animate-examples/README-Example1-DFS/server.py:5-9 | all five nodes of the example are reachable from node 0 |
| Fixtures.DfsExampleCaption | elements/pl-graph-animate/graph-animate.py:134-136 | on the example, depth-first frame 3 is captioned `Step 3: Current Node 2 (DFS)` |
| Fixtures.ExampleFrameCounts | questions/pl-graph-animate-examples/README-Example1-DFS/server.py:5-9 | the example gives 5 breadth-first, 5 depth-first and 2 shortest-path frames |
| Fixtures.DotElementAccepts | questions/pl-graph-animate-examples/README-Example1-DOTDictionary/server.py:79 | a dotty element whose named parameter is a dictionary passes validation, with the default duration |
| Fixtures.RenderDotElement | elements/pl-graph-animate/graph-animate.py:353-356 | on the DOT examples' element, any dictionary of DOT texts renders successfully to one frame per entry, in order, with the default duration |
| Fixtures.DotExample1 | questions/pl-graph-animate-examples/README-Example1-DOTDictionary/server.py:7-79 | rendering the example's four-step dictionary succeeds with four frames, frame k being step k+1's DOT text at size 5,5 and dpi 300, shown for the default duration |
| Fixtures.DotExample2 | questions/pl-graph-animate-examples/README-Example2-DOTDictionary/server.py:85-158 | rendering the example's five-step dictionary succeeds with five frames, frame k being step k+1's DOT text at size 5,5 and dpi 300, shown for the default duration |
| Text.NatToStringRoundTrip | elements/pl-graph-animate/graph-animate.py:69 | the decimal text of a number in a caption reads back as that number |
| Text.NatToStringInjective | elements/pl-graph-animate/graph-animate.py:135 | different nodes and steps get different caption numbers |
| Text.Lower | elements/pl-graph-animate/graph-animate.py:278 | lower-casing keeps the length and lower-cases each letter A-Z, and only those |
| Text.LowerIdempotent | elements/pl-graph-animate/graph-animate.py:335 | lower-casing an already lower-cased name changes nothing |

## Findings

| source | as written | input that shows it | evidently intended | confidence | as-written member | corrected member |
|---|---|---|---|---|---|---|
| elements/pl-graph-animate/graph-animate.py:284-288 | `float(frame_duration)` then `if frame_duration <= 0: raise`, so only durations `<= 0` are refused | `frame-duration="nan"`: `float("nan")` is NaN and `NaN <= 0` is false, so the check passes | accept only positive floats, as the message "must be a positive float" says | not executed | Element.NaNDurationAccepted | Element.DurationChecks |

`Element.Validate`, and with it `CheckParameters` and `Render`, uses the corrected check
(`DurationAccepted`). `Element.CheckAcceptsIff` states the resulting rule: the duration is
`Positive`.

## Left out

- Rasterising (`A.draw`, temporary PNG files), video assembly (`create_video_from_frames`), base64 encoding and the HTML string are I/O and foreign code. A frame is the drawing description handed to graphviz.
- Attribute plumbing (`lxml` parsing, `pl.get_string_attrib`, `pl.get_boolean_attrib`, `pl.from_json`) is left out: the validator takes the values already extracted. An attribute that is absent is `None` and takes the source's default. The boolean checks at lines 290-300 are left out because those accessors only return booleans.
- Floating point: a duration is a `Float` datatype (a finite real, infinity or NaN) and the text `float()` cannot parse is `Unparsable`. Parsing text to a float is not modelled.
- Element.ToMatrix: matrix entries are integers. A JSON array of floats or booleans passes validation in the source but is an error in `Element.AnimateMatrix` here. The same holds for a negative weight under Dijkstra, and for a DOT value that is not text in `Element.AnimateDot`. The source animates these inputs and the model refuses them, with error messages that exist only in the model. A float or boolean matrix builds and animates normally in the source. A negative weight under Dijkstra often yields frames in the source; networkx raises "Contradictory paths found" only when a negative edge would improve a node already finalised. The source's handling of a DOT value that is not text is left to pygraphviz.
- Frames.WeightLabel: the label is the integer weight in decimal. `str()` of a float weight such as `1.0` is not modelled.
- Graphs.Build: an undirected graph built from an asymmetric matrix has edges in both directions (the union). Its weight is the entry that comes later in row-major order, which is how `from_numpy_array` overwrites; this is not pinned against the library.
- The pass-through branch that accepts a prebuilt graph (lines 45-46, 112-113, 175-176) is left out; `render` never takes it.
- Text.Lower lower-cases ASCII letters only; Python's Unicode `str.lower` is wider.
- Element.IsSquareArray stands in for `np.array(...)` with `ndim == 2` and a square shape: rows are lists of equal length and no entry is a list. numpy's other object-array corner cases are not modelled.
- Element.Validate: params are a map from name to JSON value, so a name missing from params fails the matrix or dotty check, as the source's `except Exception` makes it. The `try` around attribute extraction is not modelled.
- ShortestPaths.Dijkstra: the contract states a shortest-path run (order, distances, paths) but not the exact tie order or which of several equally short paths is recorded. The body follows networkx's heap rule of (distance, push counter), but no lemma pins the output to that rule.
- `render` calls `single_source_dijkstra_path_length` and `single_source_dijkstra_path` separately; the model uses one run for both, assuming the library computes the same order and paths both times.
- Graphs.Neighbors: neighbours are listed in ascending index, networkx's adjacency order for directed graphs and for symmetric matrices. For an undirected graph from an asymmetric matrix, networkx orders a node's neighbours by when their edge was inserted in the row-major scan. For example, with M[0][2] = 1, M[1][0] = 1 and every other entry 0, node 0 lists 2 before 1, so the source's breadth-first order from 0 is 0, 2, 1 while `Traversal.Bfs` gives 0, 1, 2. Dijkstra's ties differ the same way. This order is not modelled.
- Element.AnimateDot: a JSON object is a list of fields, so a repeated key gives two frames here. A Python dict keeps one entry, holding the last value at the first key's position. Repeated keys are not modelled.
- Graphviz's handling of DOT text is not modelled: the adapter keeps the text as given and sets size and dpi on top of it.
- Traversal from a start node other than 0 is modelled by `Traverse`, but `render` always starts at node 0 and the source has no start-node check.
- Element.Validate: uses the corrected duration check, so NaN is rejected here, while the source accepts it (see Findings).

Points where the source's behaviour may be unexpected, and which the model follows:

- Dijkstra frames thicken only the edges of the current target's path. `visited_edges` is accumulated but never read (lines 185, 202).
- A DOT dictionary is checked only for being a dictionary; its entries are not validated.
