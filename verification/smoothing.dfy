/** Laplacian smoothing of a per-vertex scalar field over the mesh graph
    (`laplacian_smoothing`, mesh_io.py). Each pass moves every vertex that has
    neighbours a fraction `factor` of the way toward the unweighted mean of its
    neighbours' values from the PREVIOUS pass (a Jacobi update); vertices with no
    neighbour keep their value. */
module Smoothing {
  import opened Errors
  import opened Means
  import opened Neighbors

  /** Every vertex that has a neighbour, and every neighbour, indexes the field. */
  ghost predicate Closed(t: NeighborTable, m: nat) {
    forall u, v :: 0 <= u < |t| && v in t[u] ==> u < m && v < m
  }

  /** The new value of vertex `i` after one pass over the field `vals`. */
  function StepAt(t: NeighborTable, vals: seq<real>, factor: real, i: nat): real
    requires i < |vals| && Closed(t, |vals|)
  {
    if i < |t| && t[i] != {} then
      vals[i] + factor * (Mean(t[i], vals) - vals[i])
    else
      vals[i]
  }

  /** One synchronous pass: every new value is computed from the old field only.
      A vertex with neighbours closes the gap to its neighbour mean by the
      fraction `factor`; a vertex without neighbours keeps its value. */
  function Step(t: NeighborTable, vals: seq<real>, factor: real): (r: seq<real>)
    requires Closed(t, |vals|)
    ensures |r| == |vals|
    ensures forall i :: 0 <= i < |vals| && i < |t| && t[i] != {} ==>
              r[i] - Mean(t[i], vals) == (1.0 - factor) * (vals[i] - Mean(t[i], vals))
    ensures forall i :: 0 <= i < |vals| && (i >= |t| || t[i] == {}) ==> r[i] == vals[i]
  {
    seq(|vals|, i requires 0 <= i < |vals| => StepAt(t, vals, factor, i))
  }

  /** The field after `k` passes. */
  function Iterate(t: NeighborTable, vals: seq<real>, factor: real, k: nat): (r: seq<real>)
    requires Closed(t, |vals|)
    ensures |r| == |vals|
    decreases k
  {
    if k == 0 then vals else Step(t, Iterate(t, vals, factor, k - 1), factor)
  }

  /** `laplacian_smoothing(vertices, faces, scalar, iterations, lambda_factor)` with
      `n` the number of vertices. The neighbour table is built first, so a face
      index `>= n` fails whatever `iterations` is; a non-positive `iterations`
      runs no pass; a pass reads the scalar at every vertex that occurs in a face,
      so such a vertex beyond the end of `scalar` fails. */
  function LaplacianSmoothing(n: nat, faces: seq<Face>, scalar: seq<real>, iterations: int, factor: real): (r: Result<seq<real>>)
    ensures r.Success? <==> AllInRange(faces, n) && (iterations > 0 ==> AllInRange(faces, |scalar|))
    ensures r.Failure? && AllInRange(faces, n) ==> r.error == ScalarIndexOutOfRange
    ensures r.Failure? && !AllInRange(faces, n) ==>
              r.error.FaceIndexOutOfRange? && FirstOutOfRange(faces, n, r.error.face)
    ensures r.Success? ==> |r.value| == |scalar|
    ensures r.Success? && iterations <= 0 ==> r.value == scalar
  {
    var t :- BuildNeighbors(n, faces);
    if iterations <= 0 then
      Success(scalar)
    else if exists v | |scalar| <= v < n :: t[v] != {} then
      ShortFieldFails(n, faces, |scalar|);
      Failure(ScalarIndexOutOfRange)
    else
      CoveredFieldIsClosed(n, faces, |scalar|);
      Success(Iterate(t, scalar, factor, iterations))
  }

  /** A call that leaves out the optional arguments: `iterations = 10` and
      `lambda_factor = 0.5`. Ten passes always run, so every face must index
      both the mesh and the scalar field. */
  function LaplacianSmoothingDefaults(n: nat, faces: seq<Face>, scalar: seq<real>): (r: Result<seq<real>>)
    ensures r.Success? <==> AllInRange(faces, n) && AllInRange(faces, |scalar|)
    ensures r.Success? ==> |r.value| == |scalar|
  {
    LaplacianSmoothing(n, faces, scalar, 10, 0.5)
  }

  /** When no vertex in `[m, n)` has a neighbour, the table is closed for a field
      of length `m`, and every face indexes that field. */
  lemma CoveredFieldIsClosed(n: nat, faces: seq<Face>, m: nat)
    requires BuildNeighbors(n, faces).Success?
    requires forall v :: m <= v < n ==> BuildNeighbors(n, faces).value[v] == {}
    ensures Closed(BuildNeighbors(n, faces).value, m)
    ensures forall k :: 0 <= k < |faces| ==> faces[k].InRange(m)
  {
    var t := BuildNeighbors(n, faces).value;
    forall u, v | 0 <= u < |t| && v in t[u] ensures u < m && v < m {
      NeighborsInRange(n, faces, u, v);
      NeighborsSymmetric(n, faces, u, v);
    }
    forall k, p: nat | 0 <= k < |faces| && p < 3 ensures faces[k].Corner(p) < m {
      var v := faces[k].Corner(p);
      assert Occurs(faces, v);
      IsolatedIffAbsent(BuildNeighbors(n, faces).value, faces, n, v);
    }
    forall k | 0 <= k < |faces| ensures faces[k].InRange(m) {
      assert faces[k].Corner(0) < m && faces[k].Corner(1) < m && faces[k].Corner(2) < m;
    }
  }

  /** When some vertex in `[m, n)` has a neighbour, some face does not index a
      field of length `m`. */
  lemma ShortFieldFails(n: nat, faces: seq<Face>, m: nat)
    requires BuildNeighbors(n, faces).Success?
    requires exists v | m <= v < n :: BuildNeighbors(n, faces).value[v] != {}
    ensures exists k :: 0 <= k < |faces| && !faces[k].InRange(m)
  {
    var v :| m <= v < n && BuildNeighbors(n, faces).value[v] != {};
    IsolatedIffAbsent(BuildNeighbors(n, faces).value, faces, n, v);
    assert Occurs(faces, v);
    var k, p: nat :| 0 <= k < |faces| && p < 3 && faces[k].Corner(p) == v;
    assert faces[k].Corner(p) >= m;
    assert !faces[k].InRange(m);
  }

  /** Update rule: a vertex with neighbours moves a fraction `factor` of the way
      toward its neighbour mean, so its distance to that mean shrinks by the
      factor `1 - factor`; with `factor == 1` it lands on the mean. */
  lemma StepTowardMean(t: NeighborTable, vals: seq<real>, factor: real, i: nat)
    requires Closed(t, |vals|)
    requires i < |vals| && i < |t| && t[i] != {}
    ensures Step(t, vals, factor)[i] - Mean(t[i], vals) == (1.0 - factor) * (vals[i] - Mean(t[i], vals))
    ensures factor == 1.0 ==> Step(t, vals, factor)[i] == Mean(t[i], vals)
  {
  }

  /** With `factor == 0` no pass changes the field. */
  lemma {:induction false} IterateZeroLambda(t: NeighborTable, vals: seq<real>, k: nat)
    requires Closed(t, |vals|)
    ensures Iterate(t, vals, 0.0, k) == vals
    decreases k
  {
    if k > 0 {
      IterateZeroLambda(t, vals, k - 1);
      assert Step(t, vals, 0.0) == vals;
    }
  }

  /** A vertex with no neighbour keeps its initial value through any number of passes. */
  lemma {:induction false} IterateIsolated(t: NeighborTable, vals: seq<real>, factor: real, k: nat, i: nat)
    requires Closed(t, |vals|)
    requires i < |vals| && (i >= |t| || t[i] == {})
    ensures Iterate(t, vals, factor, k)[i] == vals[i]
    decreases k
  {
    if k > 0 {
      IterateIsolated(t, vals, factor, k - 1, i);
    }
  }

  /** A constant field is a fixed point of smoothing. */
  lemma {:induction false} IterateConstant(t: NeighborTable, vals: seq<real>, factor: real, k: nat, c: real)
    requires Closed(t, |vals|)
    requires forall i :: 0 <= i < |vals| ==> vals[i] == c
    ensures Iterate(t, vals, factor, k) == vals
    decreases k
  {
    if k > 0 {
      IterateConstant(t, vals, factor, k - 1, c);
      forall i | 0 <= i < |vals| ensures Step(t, vals, factor)[i] == vals[i] {
        if i < |t| && t[i] != {} {
          MeanConstant(t[i], vals, c);
        }
      }
    }
  }

  /** For `0 <= factor <= 1` a value moved toward a mean stays between the bounds
      that both respect. */
  lemma ConvexStep(x: real, m: real, factor: real, lo: real, hi: real)
    requires 0.0 <= factor <= 1.0
    requires lo <= x <= hi && lo <= m <= hi
    ensures lo <= x + factor * (m - x) <= hi
  {
    var y := x + factor * (m - x);
    assert hi - y == (1.0 - factor) * (hi - x) + factor * (hi - m);
    assert y - lo == (1.0 - factor) * (x - lo) + factor * (m - lo);
    MulNonNegative(1.0 - factor, hi - x);
    MulNonNegative(factor, hi - m);
    MulNonNegative(1.0 - factor, x - lo);
    MulNonNegative(factor, m - lo);
  }

  lemma MulNonNegative(a: real, b: real)
    requires a >= 0.0 && b >= 0.0
    ensures a * b >= 0.0
  {
  }

  /** Maximum principle: for `0 <= factor <= 1` smoothing never leaves the range
      of the initial field. */
  lemma {:induction false} IterateBounds(t: NeighborTable, vals: seq<real>, factor: real, k: nat, lo: real, hi: real)
    requires Closed(t, |vals|)
    requires 0.0 <= factor <= 1.0
    requires forall i :: 0 <= i < |vals| ==> lo <= vals[i] <= hi
    ensures forall i :: 0 <= i < |vals| ==> lo <= Iterate(t, vals, factor, k)[i] <= hi
    decreases k
  {
    if k > 0 {
      IterateBounds(t, vals, factor, k - 1, lo, hi);
      StepBounds(t, Iterate(t, vals, factor, k - 1), factor, lo, hi);
    }
  }

  /** One pass with `0 <= factor <= 1` keeps the field within bounds it already respects. */
  lemma StepBounds(t: NeighborTable, vals: seq<real>, factor: real, lo: real, hi: real)
    requires Closed(t, |vals|)
    requires 0.0 <= factor <= 1.0
    requires forall i :: 0 <= i < |vals| ==> lo <= vals[i] <= hi
    ensures forall i :: 0 <= i < |vals| ==> lo <= Step(t, vals, factor)[i] <= hi
  {
    forall i | 0 <= i < |vals| ensures lo <= StepAt(t, vals, factor, i) <= hi {
      if i < |t| && t[i] != {} {
        MeanBounds(t[i], vals, lo, hi);
        ConvexStep(vals[i], Mean(t[i], vals), factor, lo, hi);
      }
    }
  }

  /** `a` passes followed by `b` passes are `a + b` passes. */
  lemma {:induction false} IterateAdd(t: NeighborTable, vals: seq<real>, factor: real, a: nat, b: nat)
    requires Closed(t, |vals|)
    ensures Iterate(t, Iterate(t, vals, factor, a), factor, b) == Iterate(t, vals, factor, a + b)
    decreases b
  {
    if b > 0 {
      IterateAdd(t, vals, factor, a, b - 1);
    }
  }

  /** `factor == 0` returns the field unchanged. */
  lemma SmoothingZeroLambda(n: nat, faces: seq<Face>, scalar: seq<real>, iterations: int)
    requires LaplacianSmoothing(n, faces, scalar, iterations, 0.0).Success?
    ensures LaplacianSmoothing(n, faces, scalar, iterations, 0.0).value == scalar
  {
    if iterations > 0 {
      var t := BuildNeighbors(n, faces).value;
      CoveredFieldIsClosed(n, faces, |scalar|);
      IterateZeroLambda(t, scalar, iterations);
    }
  }

  /** Maximum principle for the whole routine: for `0 <= factor <= 1` every
      value of the result lies within any bounds that hold for the input field. */
  lemma SmoothingBounds(n: nat, faces: seq<Face>, scalar: seq<real>, iterations: int, factor: real, lo: real, hi: real)
    requires LaplacianSmoothing(n, faces, scalar, iterations, factor).Success?
    requires 0.0 <= factor <= 1.0
    requires forall i :: 0 <= i < |scalar| ==> lo <= scalar[i] <= hi
    ensures forall i :: 0 <= i < |scalar| ==> lo <= LaplacianSmoothing(n, faces, scalar, iterations, factor).value[i] <= hi
  {
    if iterations > 0 {
      var t := BuildNeighbors(n, faces).value;
      CoveredFieldIsClosed(n, faces, |scalar|);
      IterateBounds(t, scalar, factor, iterations, lo, hi);
    }
  }

  /** A vertex that no face mentions keeps its value. */
  lemma SmoothingKeepsAbsentVertex(n: nat, faces: seq<Face>, scalar: seq<real>, iterations: int, factor: real, v: nat)
    requires LaplacianSmoothing(n, faces, scalar, iterations, factor).Success?
    requires v < |scalar| && !Occurs(faces, v)
    ensures LaplacianSmoothing(n, faces, scalar, iterations, factor).value[v] == scalar[v]
  {
    if iterations > 0 {
      var t := BuildNeighbors(n, faces).value;
      CoveredFieldIsClosed(n, faces, |scalar|);
      if v < n {
        IsolatedIffAbsent(BuildNeighbors(n, faces).value, faces, n, v);
      }
      IterateIsolated(t, scalar, factor, iterations, v);
    }
  }

  /** One pass as `laplacian_smoothing` in mesh_io.py runs it: start from a copy of the old field and
      overwrite, vertex by vertex, the entries of vertices that have neighbours,
      reading only the old field. Any visiting order that reaches every such
      vertex, with repeats allowed, yields the same field. */
  method SmoothingPass(t: NeighborTable, cur: seq<real>, factor: real, order: seq<nat>) returns (next: seq<real>)
    requires Closed(t, |cur|)
    requires forall i :: 0 <= i < |t| && t[i] != {} ==> i in order
    ensures next == Step(t, cur, factor)
  {
    next := cur;
    for k := 0 to |order|
      invariant |next| == |cur|
      invariant forall i :: 0 <= i < |cur| ==>
                  next[i] == if i in order[..k] then StepAt(t, cur, factor, i) else cur[i]
    {
      var i := order[k];
      assert order[..k + 1] == order[..k] + [i];
      if i < |t| && t[i] != {} {
        next := next[i := cur[i] + factor * (Mean(t[i], cur) - cur[i])];
      }
    }
    assert order[..|order|] == order;
  }

  /** The procedure of `laplacian_smoothing` in mesh_io.py: fill the neighbour table face by face, then run
      `iterations` passes over the vertices in index order. */
  method Smooth(n: nat, faces: seq<Face>, scalar: seq<real>, iterations: int, factor: real) returns (r: Result<seq<real>>)
    ensures r == LaplacianSmoothing(n, faces, scalar, iterations, factor)
  {
    var built := BuildNeighborsLoop(n, faces);
    if built.Failure? {
      return Failure(built.error);
    }
    var t := built.value;
    if iterations <= 0 {
      return Success(scalar);
    }
    if exists v | |scalar| <= v < n :: t[v] != {} {
      return Failure(ScalarIndexOutOfRange);
    }
    CoveredFieldIsClosed(n, faces, |scalar|);
    var smoothed := RunPasses(t, scalar, factor, iterations);
    return Success(smoothed);
  }

  /** `passes` passes over the vertices `0 .. |t| - 1` in index order, each
      replacing the field only once the whole new field is computed. */
  method RunPasses(t: NeighborTable, vals: seq<real>, factor: real, passes: nat) returns (cur: seq<real>)
    requires Closed(t, |vals|)
    ensures cur == Iterate(t, vals, factor, passes)
  {
    var order := seq(|t|, i => i);
    forall i | 0 <= i < |t| ensures i in order {
      assert order[i] == i;
    }
    cur := vals;
    var pass := 0;
    while pass < passes
      invariant 0 <= pass <= passes
      invariant cur == Iterate(t, vals, factor, pass)
    {
      cur := SmoothingPass(t, cur, factor, order);
      pass := pass + 1;
    }
  }

  /** Two triangles (0, 1, 2) and (1, 2, 3) sharing the edge 1-2. */
  lemma SharedEdgeNeighbors(faces: seq<Face>)
    requires faces == [Face(0, 1, 2), Face(1, 2, 3)]
    ensures BuildNeighbors(4, faces) == Success([{1, 2}, {0, 2, 3}, {0, 1, 3}, {1, 2}])
  {
    TwoFaceFold(faces);
    FirstTriangle(EmptyTable(4));
    SecondTriangle([{1, 2}, {0, 2}, {0, 1}, {}]);
  }

  lemma FirstTriangle(t0: NeighborTable)
    requires t0 == EmptyTable(4)
    ensures AddFace(t0, Face(0, 1, 2)) == [{1, 2}, {0, 2}, {0, 1}, {}]
  {
    var t1 := AddFace(t0, Face(0, 1, 2));
    assert t1[0] == {1, 2} && t1[1] == {0, 2} && t1[2] == {0, 1} && t1[3] == {};
  }

  lemma SecondTriangle(t1: NeighborTable)
    requires t1 == [{1, 2}, {0, 2}, {0, 1}, {}]
    ensures AddFace(t1, Face(1, 2, 3)) == [{1, 2}, {0, 2, 3}, {0, 1, 3}, {1, 2}]
  {
    var t2 := AddFace(t1, Face(1, 2, 3));
    assert t2[0] == {1, 2} && t2[1] == {0, 2, 3} && t2[2] == {0, 1, 3} && t2[3] == {1, 2};
  }

  /** The fold over a two-face list adds the first face, then the second. */
  lemma TwoFaceFold(faces: seq<Face>)
    requires |faces| == 2 && faces[0].InRange(4) && faces[1].InRange(4)
    ensures BuildNeighbors(4, faces) == Success(AddFace(AddFace(EmptyTable(4), faces[0]), faces[1]))
  {
    var t0 := EmptyTable(4);
    assert faces[..0] == [];
    BuildNeighborsNext(4, faces, 0, t0);
    BuildNeighborsNext(4, faces, 1, AddFace(t0, faces[0]));
    assert faces[..2] == faces;
  }

  /** On that mesh, field [0, 10, 10, 0] with `factor == 1/2` and one pass gives
      [5, 20/3, 20/3, 5]. */
  lemma SharedEdgeScenario(faces: seq<Face>, vals: seq<real>)
    requires faces == [Face(0, 1, 2), Face(1, 2, 3)]
    requires vals == [0.0, 10.0, 10.0, 0.0]
    ensures LaplacianSmoothing(4, faces, vals, 1, 0.5) == Success([5.0, 20.0 / 3.0, 20.0 / 3.0, 5.0])
  {
    var t: NeighborTable := [{1, 2}, {0, 2, 3}, {0, 1, 3}, {1, 2}];
    SharedEdgeNeighbors(faces);
    CoveredFieldIsClosed(4, faces, 4);
    SharedEdgeMeans(vals);
    SharedEdgeStep(t, vals);
    assert Iterate(t, vals, 0.5, 1) == Step(t, vals, 0.5);
  }

  lemma SharedEdgeMeans(vals: seq<real>)
    requires vals == [0.0, 10.0, 10.0, 0.0]
    ensures Mean({1, 2}, vals) == 10.0
    ensures Mean({0, 2, 3}, vals) == 10.0 / 3.0
    ensures Mean({0, 1, 3}, vals) == 10.0 / 3.0
  {
    assert SumBelow({1, 2}, vals, 4) == 20.0;
    assert SumBelow({0, 2, 3}, vals, 4) == 10.0;
    assert SumBelow({0, 1, 3}, vals, 4) == 10.0;
    assert |{1, 2}| == 2 && |{0, 2, 3}| == 3 && |{0, 1, 3}| == 3;
  }

  lemma SharedEdgeStep(t: NeighborTable, vals: seq<real>)
    requires t == [{1, 2}, {0, 2, 3}, {0, 1, 3}, {1, 2}]
    requires vals == [0.0, 10.0, 10.0, 0.0]
    requires Closed(t, |vals|)
    ensures Step(t, vals, 0.5) == [5.0, 20.0 / 3.0, 20.0 / 3.0, 5.0]
  {
    SharedEdgeMeans(vals);
    var r := Step(t, vals, 0.5);
    assert r[0] == 5.0 && r[1] == 20.0 / 3.0 && r[2] == 20.0 / 3.0 && r[3] == 5.0;
  }
}
