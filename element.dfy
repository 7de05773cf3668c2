/**
  The element's entry points in `elements/pl-graph-animate/graph-animate.py`: the parameter
  validator `check_parameters` and the algorithm dispatch of `render`.

  The element's HTML attributes arrive already extracted (None: the attribute is absent and
  its default applies), and the question's parameters arrive as a map from names to JSON
  values. Parsing the HTML, the JSON and the frame-duration text is not modelled; the
  outcome of Python's `float()` on that text is an input.
*/
module Element {
  import opened Wrappers
  import opened Json
  import opened Text
  import opened Graphs
  import opened Traversal
  import opened ShortestPaths
  import opened Frames

  // ---------------------------------------------------------------- inputs

  /** A Python float as far as the validator can tell it apart. */
  datatype Float = Finite(value: real) | PosInf | NegInf | NaN

  /** What `float()` made of the frame-duration text: a float, or a raised ValueError. */
  datatype DurationText = Parsed(f: Float) | Unparsable

  datatype Attributes = Attributes(
    paramsName: string,
    paramsType: Option<string>,
    algorithm: Option<string>,
    frameDuration: Option<DurationText>,
    showSteps: Option<bool>,
    showWeights: Option<bool>,
    directedGraph: Option<bool>)

  const ParamsTypeDefault: string := "adjacency-matrix"
  const AlgorithmDefault: string := "dfs"
  const DurationDefault: Float := Finite(2.0)
  const ShowStepsDefault: bool := true
  const ShowWeightsDefault: bool := false
  const DirectedDefault: bool := false

  function OrElse<T>(o: Option<T>, default: T): T {
    if o.Some? then o.value else default
  }

  // ---------------------------------------------------------------- validated settings

  datatype Kind = AdjacencyMatrix | Dotty
  datatype Algorithm = Dfs | Bfs | Dijkstra

  /** What the validator lets through, as `render` reads it back. */
  datatype Settings = Settings(name: string, kind: Kind, algorithm: Algorithm, duration: Float,
                               showSteps: bool, showWeights: bool, directed: bool)

  const ValidationPrefix: string := "Parameter validation failed: "
  const NameError: string := "Invalid 'params-name': must be a non-empty string."
  const DurationError: string := "Invalid 'frame-duration': must be a positive float."
  const MatrixError: string := "Invalid JSON format for adjacency matrix."
  const DotError: string := "Invalid JSON format for dotty commands."

  function TypeError(t: string): string {
    "Invalid 'params-type': " + t + ". Must be 'adjacency-matrix' or 'dotty'."
  }

  function AlgorithmError(a: string): string {
    "Invalid 'algorithm': " + a + ". Supported algorithms are 'dfs', 'bfs', or 'dijkstra'."
  }

  /** Python's `x <= 0` on a float: every comparison with NaN is false. */
  predicate AtMostZero(f: Float) {
    match f
    case Finite(x) => x <= 0.0
    case NegInf => true
    case _ => false
  }

  /** A positive float. NaN is not one. */
  predicate Positive(f: Float) {
    (f.Finite? && f.value > 0.0) || f.PosInf?
  }

  /** The duration check as the validator writes it: reject what is `<= 0`. */
  predicate DurationAcceptedAsWritten(f: Float) {
    !AtMostZero(f)
  }

  /** The duration check as its message states it: accept exactly the positive floats. */
  predicate DurationAccepted(f: Float) {
    !AtMostZero(f) && !f.NaN?
  }

  /** The written check lets NaN through, although NaN is not a positive float. */
  lemma NaNDurationAccepted()
    ensures DurationAcceptedAsWritten(NaN) && !Positive(NaN)
  {
  }

  /** The corrected check accepts exactly the positive floats; the two checks differ only on NaN. */
  lemma DurationChecks(f: Float)
    ensures DurationAccepted(f) <==> Positive(f)
    ensures DurationAcceptedAsWritten(f) <==> DurationAccepted(f) || f == NaN
  {
  }

  /**
    A square two-dimensional array as numpy builds it from nested lists: at least one row,
    every row a list as long as there are rows, and no entry a list (a list entry either
    makes a third dimension or a ragged array, and both are refused).
  */
  predicate IsSquareArray(v: Value) {
    v.Arr? && |v.items| >= 1 &&
    forall i :: 0 <= i < |v.items| ==>
      v.items[i].Arr? && |v.items[i].items| == |v.items| &&
      forall j :: 0 <= j < |v.items| ==> !v.items[i].items[j].Arr?
  }

  function ParseKind(t: string): Option<Kind> {
    if t == "adjacency-matrix" then Some(AdjacencyMatrix)
    else if t == "dotty" then Some(Dotty)
    else None
  }

  function ParseAlgorithm(a: string): Option<Algorithm> {
    if a == "dfs" then Some(Dfs)
    else if a == "bfs" then Some(Bfs)
    else if a == "dijkstra" then Some(Dijkstra)
    else None
  }

  function DurationOf(d: Option<DurationText>): Option<Float> {
    match d
    case None => Some(DurationDefault)
    case Some(Parsed(f)) => Some(f)
    case Some(Unparsable) => None
  }

  /** The checks in the order the validator makes them; the first that fails gives the message. */
  function Validate(a: Attributes, params: map<string, Value>): Result<Settings> {
    var t := OrElse(a.paramsType, ParamsTypeDefault);
    var alg := Lower(OrElse(a.algorithm, AlgorithmDefault));
    var d := DurationOf(a.frameDuration);
    if a.paramsName == "" then Err(NameError)
    else if ParseKind(t).None? then Err(TypeError(t))
    else if ParseAlgorithm(alg).None? then Err(AlgorithmError(alg))
    else if d.None? || !DurationAccepted(d.value) then Err(DurationError)
    else if ParseKind(t) == Some(AdjacencyMatrix) &&
            !(a.paramsName in params && IsSquareArray(params[a.paramsName])) then Err(MatrixError)
    else if ParseKind(t) == Some(Dotty) &&
            !(a.paramsName in params && params[a.paramsName].Obj?) then Err(DotError)
    else Ok(Settings(a.paramsName, ParseKind(t).value, ParseAlgorithm(alg).value, d.value,
                     OrElse(a.showSteps, ShowStepsDefault), OrElse(a.showWeights, ShowWeightsDefault),
                     OrElse(a.directedGraph, DirectedDefault)))
  }

  /** `check_parameters`: every failure is reported with the validation prefix. */
  function CheckParameters(a: Attributes, params: map<string, Value>): Result<Settings> {
    match Validate(a, params)
    case Ok(s) => Ok(s)
    case Err(m) => Err(ValidationPrefix + m)
  }

  /** The parameters are accepted exactly when every rule holds. */
  lemma CheckAcceptsIff(a: Attributes, params: map<string, Value>)
    ensures var t := OrElse(a.paramsType, ParamsTypeDefault);
      var alg := Lower(OrElse(a.algorithm, AlgorithmDefault));
      var d := DurationOf(a.frameDuration);
      CheckParameters(a, params).Ok? <==>
        a.paramsName != "" &&
        (t == "adjacency-matrix" || t == "dotty") &&
        (alg == "dfs" || alg == "bfs" || alg == "dijkstra") &&
        d.Some? && Positive(d.value) &&
        a.paramsName in params &&
        (t == "adjacency-matrix" ==> IsSquareArray(params[a.paramsName])) &&
        (t == "dotty" ==> params[a.paramsName].Obj?)
  {
    var d := DurationOf(a.frameDuration);
    if d.Some? {
      DurationChecks(d.value);
    }
  }

  /**
    A rejection carries the prefix and the message of the first rule that fails, the rules
    taken in the validator's order: name, type, algorithm, duration, then the parameter's shape.
  */
  lemma CheckRejects(a: Attributes, params: map<string, Value>)
    ensures var r, t := CheckParameters(a, params), OrElse(a.paramsType, ParamsTypeDefault);
      var alg := Lower(OrElse(a.algorithm, AlgorithmDefault));
      r.Err? ==>
        exists m :: r.message == ValidationPrefix + m &&
          m in {NameError, TypeError(t), AlgorithmError(alg), DurationError, MatrixError, DotError}
    ensures a.paramsName == "" ==> CheckParameters(a, params) == Err(ValidationPrefix + NameError)
    ensures var t := OrElse(a.paramsType, ParamsTypeDefault);
      a.paramsName != "" && t != "adjacency-matrix" && t != "dotty" ==>
        CheckParameters(a, params) == Err(ValidationPrefix + TypeError(t))
  {
    var r := CheckParameters(a, params);
    if r.Err? {
      assert r.message == ValidationPrefix + Validate(a, params).message;
    }
  }

  /** With a valid name and type, a bad algorithm, or then a bad duration, gives that rule's message. */
  lemma CheckRejectsSettings(a: Attributes, params: map<string, Value>)
    ensures var t, alg := OrElse(a.paramsType, ParamsTypeDefault), Lower(OrElse(a.algorithm, AlgorithmDefault));
      a.paramsName != "" && (t == "adjacency-matrix" || t == "dotty") &&
      alg != "dfs" && alg != "bfs" && alg != "dijkstra" ==>
        CheckParameters(a, params) == Err(ValidationPrefix + AlgorithmError(alg))
    ensures var t, alg := OrElse(a.paramsType, ParamsTypeDefault), Lower(OrElse(a.algorithm, AlgorithmDefault));
      var d := DurationOf(a.frameDuration);
      a.paramsName != "" && (t == "adjacency-matrix" || t == "dotty") &&
      (alg == "dfs" || alg == "bfs" || alg == "dijkstra") &&
      !(d.Some? && Positive(d.value)) ==>
        CheckParameters(a, params) == Err(ValidationPrefix + DurationError)
  {
    var d := DurationOf(a.frameDuration);
    if d.Some? {
      DurationChecks(d.value);
    }
  }

  /** With every setting valid, a parameter of the wrong shape gives the matrix or the dotty message. */
  lemma CheckRejectsParameter(a: Attributes, params: map<string, Value>)
    ensures var t, alg := OrElse(a.paramsType, ParamsTypeDefault), Lower(OrElse(a.algorithm, AlgorithmDefault));
      var d := DurationOf(a.frameDuration);
      a.paramsName != "" && t == "adjacency-matrix" &&
      (alg == "dfs" || alg == "bfs" || alg == "dijkstra") && d.Some? && Positive(d.value) &&
      !(a.paramsName in params && IsSquareArray(params[a.paramsName])) ==>
        CheckParameters(a, params) == Err(ValidationPrefix + MatrixError)
    ensures var t, alg := OrElse(a.paramsType, ParamsTypeDefault), Lower(OrElse(a.algorithm, AlgorithmDefault));
      var d := DurationOf(a.frameDuration);
      a.paramsName != "" && t == "dotty" &&
      (alg == "dfs" || alg == "bfs" || alg == "dijkstra") && d.Some? && Positive(d.value) &&
      !(a.paramsName in params && params[a.paramsName].Obj?) ==>
        CheckParameters(a, params) == Err(ValidationPrefix + DotError)
  {
    var d := DurationOf(a.frameDuration);
    if d.Some? {
      DurationChecks(d.value);
    }
  }

  /** What is accepted is what `render` runs on: the named parameter, the lower-cased algorithm, a positive duration. */
  lemma CheckSettings(a: Attributes, params: map<string, Value>)
    requires CheckParameters(a, params).Ok?
    ensures var st := CheckParameters(a, params).value;
      st.name == a.paramsName && st.name in params && Positive(st.duration) &&
      (st.kind == AdjacencyMatrix ==> IsSquareArray(params[st.name])) &&
      (st.kind == Dotty ==> params[st.name].Obj?) &&
      ParseAlgorithm(Lower(OrElse(a.algorithm, AlgorithmDefault))) == Some(st.algorithm) &&
      st.showSteps == OrElse(a.showSteps, ShowStepsDefault) &&
      st.showWeights == OrElse(a.showWeights, ShowWeightsDefault) &&
      st.directed == OrElse(a.directedGraph, DirectedDefault)
  {
    DurationChecks(CheckParameters(a, params).value.duration);
  }

  /** The algorithm name is case-insensitive: lower-casing it first changes nothing. */
  lemma AlgorithmCaseInsensitive(a: Attributes, params: map<string, Value>, name: string)
    requires a.algorithm == Some(name)
    ensures CheckParameters(a, params) == CheckParameters(a.(algorithm := Some(Lower(name))), params)
  {
    LowerIdempotent(name);
  }

  // ---------------------------------------------------------------- from a JSON array to a matrix

  /** Every entry is an integer, the only weights this model covers. */
  predicate AllNumbers(v: Value)
    requires IsSquareArray(v)
  {
    forall i, j :: 0 <= i < |v.items| && 0 <= j < |v.items| ==> v.items[i].items[j].Num?
  }

  /** The matrix `np.array` builds from the square array. */
  function ToMatrix(v: Value): (m: seq<seq<int>>)
    requires IsSquareArray(v) && AllNumbers(v)
    ensures IsSquare(m) && |m| == |v.items|
    ensures forall i, j :: 0 <= i < |m| && 0 <= j < |m| ==> m[i][j] == v.items[i].items[j].n
  {
    seq(|v.items|, i requires 0 <= i < |v.items| =>
      seq(|v.items|, j requires 0 <= j < |v.items| => v.items[i].items[j].n))
  }

  /** The matrix can be animated with the chosen algorithm: Dijkstra needs non-negative weights. */
  predicate Usable(alg: Algorithm, v: Value)
    requires IsSquareArray(v)
  {
    AllNumbers(v) &&
    (alg == Dijkstra ==> forall i, j :: 0 <= i < |v.items| && 0 <= j < |v.items| ==> v.items[i].items[j].n >= 0)
  }

  /** Every DOT description is text. */
  predicate AllText(fields: seq<(string, Value)>) {
    forall k :: 0 <= k < |fields| ==> fields[k].1.Str?
  }

  // ---------------------------------------------------------------- what render draws

  /** The video: the frames in order, each shown for the validated duration. */
  datatype Animation = Animation(frames: seq<Frame>, duration: Float)

  ghost predicate ShowsTraversal(frames: seq<Frame>, g: Graph, mode: Mode, showSteps: bool, showWeights: bool) {
    0 < g.Size() &&
    var t := Traverse(g, mode, 0);
    |t.tree| == |t.order| - 1 && |frames| == |t.order| == |ReachableSet(g, 0)| &&
    forall i :: 0 <= i < |frames| ==> frames[i] == Drawn(TraversalFrame(g, mode, t, i + 1, showSteps, showWeights))
  }

  ghost predicate ShowsShortestPaths(frames: seq<Frame>, g: Graph, run: Run, showSteps: bool, showWeights: bool) {
    IsShortestPathRun(g, 0, run) && PathsKnown(run) &&
    |frames| == |run.order| / 2 == |ReachableSet(g, 0)| / 2 &&
    forall j :: 0 <= j < |frames| ==> frames[j] == Drawn(DijkstraFrame(g, run, j, showSteps, showWeights))
  }

  predicate ShowsDot(frames: seq<Frame>, fields: seq<(string, Value)>)
    requires AllText(fields)
  {
    |frames| == |fields| &&
    forall k :: 0 <= k < |fields| ==> frames[k] == FromDot(fields[k].1.s, SetSize(map[]))
  }

  /** The frames of the chosen algorithm on the graph, animated from node 0. */
  ghost predicate ShowsAlgorithm(frames: seq<Frame>, g: Graph, alg: Algorithm, run: Run, showSteps: bool, showWeights: bool) {
    match alg
    case Dfs => ShowsTraversal(frames, g, Depth, showSteps, showWeights)
    case Bfs => ShowsTraversal(frames, g, Breadth, showSteps, showWeights)
    case Dijkstra => ShowsShortestPaths(frames, g, run, showSteps, showWeights)
  }

  function AsFrames(ds: seq<Drawing>): (r: seq<Frame>)
    ensures |r| == |ds| && forall i :: 0 <= i < |ds| ==> r[i] == Drawn(ds[i])
  {
    seq(|ds|, i requires 0 <= i < |ds| => Drawn(ds[i]))
  }

  /** The breadth- or depth-first animation of a matrix from node 0. */
  method TraversalAnimation(m: seq<seq<int>>, directed: bool, mode: Mode, showSteps: bool, showWeights: bool)
    returns (frames: seq<Frame>)
    requires IsSquare(m)
    ensures ShowsTraversal(frames, Build(m, directed), mode, showSteps, showWeights)
  {
    var ds: seq<Drawing>;
    if mode == Depth {
      ds := DfsFrames(m, directed, 0, showSteps, showWeights);
    } else {
      ds := BfsFrames(m, directed, 0, showSteps, showWeights);
    }
    frames := AsFrames(ds);
  }

  /** The shortest-path animation of a matrix from node 0. */
  method ShortestPathAnimation(m: seq<seq<int>>, directed: bool, showSteps: bool, showWeights: bool)
    returns (frames: seq<Frame>, ghost run: Run)
    requires IsSquare(m) && NonNegative(Build(m, directed))
    ensures ShowsShortestPaths(frames, Build(m, directed), run, showSteps, showWeights)
  {
    var ds;
    ds, run := DijkstraFrames(Build(m, directed), 0, showSteps, showWeights);
    frames := AsFrames(ds);
  }

  lemma UsableNonNegative(v: Value, directed: bool)
    requires IsSquareArray(v) && Usable(Dijkstra, v)
    ensures NonNegative(Build(ToMatrix(v), directed))
  {
    var m := ToMatrix(v);
    forall i, j | 0 <= i < |m| && 0 <= j < |m[i]| ensures m[i][j] >= 0 {
      assert m[i][j] == v.items[i].items[j].n;
    }
  }

  /** The dispatch on the algorithm, with start node 0. */
  method AnimateMatrix(v: Value, alg: Algorithm, directed: bool, showSteps: bool, showWeights: bool)
    returns (r: Result<seq<Frame>>, ghost run: Run)
    requires IsSquareArray(v)
    ensures r.Ok? <==> Usable(alg, v)
    ensures r.Ok? ==> ShowsAlgorithm(r.value, Build(ToMatrix(v), directed), alg, run, showSteps, showWeights)
  {
    run := Run([], map[], map[]);
    if !AllNumbers(v) {
      return Err("The adjacency matrix holds an entry that is not an integer."), run;
    }
    if !Usable(alg, v) {
      return Err("The adjacency matrix holds a negative weight."), run;
    }
    var m := ToMatrix(v);
    var frames: seq<Frame>;
    if alg == Dfs {
      frames := TraversalAnimation(m, directed, Depth, showSteps, showWeights);
    } else if alg == Bfs {
      frames := TraversalAnimation(m, directed, Breadth, showSteps, showWeights);
    } else {
      UsableNonNegative(v, directed);
      frames, run := ShortestPathAnimation(m, directed, showSteps, showWeights);
    }
    r := Ok(frames);
  }

  /** The DOT branch: one frame per description, each of which must be text. */
  method AnimateDot(fields: seq<(string, Value)>) returns (r: Result<seq<Frame>>)
    ensures r.Ok? <==> AllText(fields)
    ensures r.Ok? ==> ShowsDot(r.value, fields)
  {
    if !AllText(fields) {
      return Err("A DOT description is not text.");
    }
    var entries := seq(|fields|, k requires 0 <= k < |fields| => (fields[k].0, fields[k].1.s));
    var frames := DotFrames(entries);
    r := Ok(frames);
  }

  /**
    `render` up to the video: validate, then animate the matrix with the chosen algorithm from
    node 0, or draw one frame per DOT description. `run` is the shortest-path search the
    Dijkstra frames come from.
  */
  method Render(a: Attributes, params: map<string, Value>) returns (r: Result<Animation>, ghost run: Run)
    ensures CheckParameters(a, params).Err? ==> r == Err(CheckParameters(a, params).message)
    ensures CheckParameters(a, params).Ok? ==>
      var st := CheckParameters(a, params).value;
      st.name in params &&
      (st.kind == AdjacencyMatrix ==>
        var v := params[st.name];
        IsSquareArray(v) && (r.Ok? <==> Usable(st.algorithm, v)) &&
        (r.Ok? ==>
          r.value.duration == st.duration &&
          ShowsAlgorithm(r.value.frames, Build(ToMatrix(v), st.directed), st.algorithm, run, st.showSteps, st.showWeights))) &&
      (st.kind == Dotty ==>
        var v := params[st.name];
        v.Obj? && (r.Ok? <==> AllText(v.fields)) &&
        (r.Ok? ==> r.value.duration == st.duration && ShowsDot(r.value.frames, v.fields)))
  {
    run := Run([], map[], map[]);
    var check := CheckParameters(a, params);
    if check.Err? {
      return Err(check.message), run;
    }
    var st := check.value;
    CheckSettings(a, params);
    var v := params[st.name];
    var frames: Result<seq<Frame>>;
    if st.kind == AdjacencyMatrix {
      frames, run := AnimateMatrix(v, st.algorithm, st.directed, st.showSteps, st.showWeights);
    } else {
      frames := AnimateDot(v.fields);
    }
    if frames.Err? {
      return Err(frames.message), run;
    }
    r := Ok(Animation(frames.value, st.duration));
  }
}
