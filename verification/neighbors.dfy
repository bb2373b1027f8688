/** The neighbour graph of a triangulated mesh, built from its face list
    (mesh_io.py, first half of `laplacian_smoothing`). */
module Neighbors {
  import opened Errors

  /** A triangular face: three vertex indices, read by corner position 0, 1, 2. */
  datatype Face = Face(a: nat, b: nat, c: nat) {

    /** The vertex index at corner position `p`. */
    function Corner(p: nat): nat
      requires p < 3
    {
      if p == 0 then a else if p == 1 then b else c
    }

    /** Every corner indexes a vertex of a mesh with `n` vertices. */
    predicate InRange(n: nat) {
      a < n && b < n && c < n
    }
  }

  /** One neighbour set per vertex. */
  type NeighborTable = seq<set<nat>>

  /** The face puts `v` into the neighbour set of `u`: `u` and `v` sit at two
      different corner POSITIONS (a degenerate face may repeat a vertex, which
      then becomes its own neighbour). */
  ghost predicate FaceLinks(f: Face, u: nat, v: nat) {
    exists p: nat, q: nat :: p < 3 && q < 3 && p != q && f.Corner(p) == u && f.Corner(q) == v
  }

  /** Some face of the list links `u` to `v`. */
  ghost predicate Adjacent(faces: seq<Face>, u: nat, v: nat) {
    exists k :: 0 <= k < |faces| && FaceLinks(faces[k], u, v)
  }

  /** Vertex `v` sits at some corner of some face. */
  ghost predicate Occurs(faces: seq<Face>, v: nat) {
    exists k, p: nat :: 0 <= k < |faces| && p < 3 && faces[k].Corner(p) == v
  }

  /** The ordered corner pairs `(p, q)`, `p != q`, that come before `(i, j)` in
      the order of the double loop over corner positions. */
  ghost predicate LinkedBefore(f: Face, u: nat, v: nat, i: nat, j: nat) {
    exists p: nat, q: nat :: p < 3 && q < 3 && p != q && (p < i || (p == i && q < j))
                            && f.Corner(p) == u && f.Corner(q) == v
  }

  /** The six ordered pairs a face links. */
  lemma FaceLinksCases(f: Face, u: nat, v: nat)
    ensures FaceLinks(f, u, v) <==>
              (u == f.a && (v == f.b || v == f.c))
              || (u == f.b && (v == f.a || v == f.c))
              || (u == f.c && (v == f.a || v == f.b))
  {
    if u == f.a && v == f.b { assert f.Corner(0) == u && f.Corner(1) == v; }
    if u == f.a && v == f.c { assert f.Corner(0) == u && f.Corner(2) == v; }
    if u == f.b && v == f.a { assert f.Corner(1) == u && f.Corner(0) == v; }
    if u == f.b && v == f.c { assert f.Corner(1) == u && f.Corner(2) == v; }
    if u == f.c && v == f.a { assert f.Corner(2) == u && f.Corner(0) == v; }
    if u == f.c && v == f.b { assert f.Corner(2) == u && f.Corner(1) == v; }
  }

  /** n empty neighbour sets. */
  function EmptyTable(n: nat): (t: NeighborTable)
    ensures |t| == n && forall u :: 0 <= u < n ==> t[u] == {}
  {
    seq(n, _ => {})
  }

  /** Adds the links of one face to the table. */
  function AddFace(t: NeighborTable, f: Face): (r: NeighborTable)
    requires f.InRange(|t|)
    ensures |r| == |t|
    ensures forall u, v :: 0 <= u < |r| ==> (v in r[u] <==> v in t[u] || FaceLinks(f, u, v))
  {
    var t1 := t[f.a := t[f.a] + {f.b, f.c}];
    var t2 := t1[f.b := t1[f.b] + {f.a, f.c}];
    var r := t2[f.c := t2[f.c] + {f.a, f.b}];
    assert forall u, v :: 0 <= u < |r| ==> (v in r[u] <==> v in t[u] || FaceLinks(f, u, v)) by {
      forall u, v | 0 <= u < |r|
        ensures v in r[u] <==> v in t[u] || FaceLinks(f, u, v)
      {
        FaceLinksCases(f, u, v);
      }
    }
    r
  }

  /** Every face indexes a vertex of a mesh with `n` vertices. */
  ghost predicate AllInRange(faces: seq<Face>, n: nat) {
    forall k :: 0 <= k < |faces| ==> faces[k].InRange(n)
  }

  /** Face `e` is the first face of the list that holds an index `>= n`. */
  ghost predicate FirstOutOfRange(faces: seq<Face>, n: nat, e: nat) {
    e < |faces| && !faces[e].InRange(n) && forall k :: 0 <= k < e ==> faces[k].InRange(n)
  }

  /** `t` holds, for each of the `n` vertices, exactly its neighbours under `faces`. */
  ghost predicate Describes(t: NeighborTable, faces: seq<Face>, n: nat) {
    |t| == n && forall u, v :: 0 <= u < n ==> (v in t[u] <==> Adjacent(faces, u, v))
  }

  /** The neighbour table of a mesh with `n` vertices: a left fold of `AddFace`
      over the face list, failing at the first face that holds an index `>= n`. */
  function BuildNeighbors(n: nat, faces: seq<Face>): (r: Result<NeighborTable>)
    ensures r.Success? <==> AllInRange(faces, n)
    ensures r.Failure? ==> r.error.FaceIndexOutOfRange? && FirstOutOfRange(faces, n, r.error.face)
    ensures r.Success? ==> Describes(r.value, faces, n)
    decreases |faces|
  {
    if |faces| == 0 then
      Success(EmptyTable(n))
    else
      var init := faces[..|faces| - 1];
      var last := faces[|faces| - 1];
      assert faces == init + [last];
      SnocInRange(init, last, n);
      match BuildNeighbors(n, init)
      case Failure(e) => Failure(e)
      case Success(t) =>
        if last.InRange(n) then
          AddFaceExtends(n, init, last, t);
          Success(AddFace(t, last))
        else
          Failure(FaceIndexOutOfRange(|faces| - 1))
  }

  /** How the range facts of a face list change when one face is appended. */
  lemma SnocInRange(init: seq<Face>, last: Face, n: nat)
    ensures AllInRange(init + [last], n) <==> AllInRange(init, n) && last.InRange(n)
    ensures forall e :: FirstOutOfRange(init, n, e) ==> FirstOutOfRange(init + [last], n, e)
    ensures AllInRange(init, n) && !last.InRange(n) ==> FirstOutOfRange(init + [last], n, |init|)
  {
    var faces := init + [last];
    assert forall k :: 0 <= k < |init| ==> faces[k] == init[k];
    assert faces[|init|] == last;
  }

  /** There is at most one first out-of-range face. */
  lemma FirstOutOfRangeUnique(faces: seq<Face>, n: nat, e1: nat, e2: nat)
    requires FirstOutOfRange(faces, n, e1) && FirstOutOfRange(faces, n, e2)
    ensures e1 == e2
  {
  }

  /** The fold takes one more face: a table for the first `k` faces and an
      in-range face `k` give the table for the first `k + 1` faces. */
  lemma BuildNeighborsNext(n: nat, faces: seq<Face>, k: nat, t: NeighborTable)
    requires k < |faces| && faces[k].InRange(n)
    requires BuildNeighbors(n, faces[..k]) == Success(t)
    ensures BuildNeighbors(n, faces[..k + 1]) == Success(AddFace(t, faces[k]))
  {
    assert faces[..k + 1][..k] == faces[..k];
  }

  /** The fold stops at the first face holding an out-of-range index. */
  lemma BuildNeighborsStops(n: nat, faces: seq<Face>, k: nat)
    requires k < |faces| && !faces[k].InRange(n)
    requires BuildNeighbors(n, faces[..k]).Success?
    ensures BuildNeighbors(n, faces) == Failure(FaceIndexOutOfRange(k))
  {
    var prefix := faces[..k];
    assert AllInRange(prefix, n);
    forall j | 0 <= j < k ensures faces[j].InRange(n) {
      assert prefix[j] == faces[j];
    }
    assert FirstOutOfRange(faces, n, k);
    var r := BuildNeighbors(n, faces);
    FirstOutOfRangeUnique(faces, n, k, r.error.face);
  }

  /** Adding the last face to a table that characterises the earlier faces
      yields a table that characterises them all. */
  lemma AddFaceExtends(n: nat, init: seq<Face>, last: Face, t: NeighborTable)
    requires last.InRange(n) && Describes(t, init, n)
    ensures Describes(AddFace(t, last), init + [last], n)
  {
    AdjacentSnoc(init, last);
  }

  lemma AdjacentSnoc(init: seq<Face>, last: Face)
    ensures forall u, v :: Adjacent(init + [last], u, v) <==> Adjacent(init, u, v) || FaceLinks(last, u, v)
  {
    var faces := init + [last];
    forall u, v ensures Adjacent(faces, u, v) <==> Adjacent(init, u, v) || FaceLinks(last, u, v) {
      if Adjacent(faces, u, v) {
        var k :| 0 <= k < |faces| && FaceLinks(faces[k], u, v);
        if k < |init| {
          assert faces[k] == init[k];
        }
      }
      if Adjacent(init, u, v) {
        var k :| 0 <= k < |init| && FaceLinks(init[k], u, v);
        assert faces[k] == init[k];
      }
      if FaceLinks(last, u, v) {
        assert faces[|init|] == last;
      }
    }
  }

  /** Every neighbour is a vertex of the mesh. */
  lemma NeighborsInRange(n: nat, faces: seq<Face>, u: nat, v: nat)
    requires BuildNeighbors(n, faces).Success?
    requires u < n && v in BuildNeighbors(n, faces).value[u]
    ensures v < n
  {
    var k :| 0 <= k < |faces| && FaceLinks(faces[k], u, v);
    FaceLinksCases(faces[k], u, v);
  }

  /** The neighbour relation is symmetric. */
  lemma NeighborsSymmetric(n: nat, faces: seq<Face>, u: nat, v: nat)
    requires BuildNeighbors(n, faces).Success?
    requires u < n && v < n
    ensures v in BuildNeighbors(n, faces).value[u] <==> u in BuildNeighbors(n, faces).value[v]
  {
    forall k | 0 <= k < |faces|
      ensures FaceLinks(faces[k], u, v) <==> FaceLinks(faces[k], v, u)
    {
      FaceLinksCases(faces[k], u, v);
      FaceLinksCases(faces[k], v, u);
    }
  }

  /** In a table that characterises the faces (as the one `BuildNeighbors`
      returns does), a vertex has an empty neighbour set exactly when no face
      mentions it. */
  lemma IsolatedIffAbsent(t: NeighborTable, faces: seq<Face>, n: nat, v: nat)
    requires Describes(t, faces, n) && v < n
    ensures t[v] == {} <==> !Occurs(faces, v)
  {
    if Occurs(faces, v) {
      var k, p: nat :| 0 <= k < |faces| && p < 3 && faces[k].Corner(p) == v;
      var q: nat := if p == 0 then 1 else 0;
      assert FaceLinks(faces[k], v, faces[k].Corner(q));
      assert faces[k].Corner(q) in t[v];
    }
    if t[v] != {} {
      var w :| w in t[v];
      var k :| 0 <= k < |faces| && FaceLinks(faces[k], v, w);
      var p: nat, q: nat :| p < 3 && q < 3 && p != q && faces[k].Corner(p) == v && faces[k].Corner(q) == w;
      assert Occurs(faces, v);
    }
  }

  /** A degenerate face that repeats vertex 0 makes 0 its own neighbour. */
  lemma DegenerateFaceSelfNeighbor()
    ensures BuildNeighbors(2, [Face(0, 0, 1)]) == Success([{0, 1}, {0}])
  {
    var faces := [Face(0, 0, 1)];
    var t := BuildNeighbors(2, faces).value;
    forall v ensures v in t[0] <==> v in {0, 1} {
      assert faces[0] == Face(0, 0, 1);
      assert Adjacent(faces, 0, v) <==> FaceLinks(faces[0], 0, v);
      FaceLinksCases(faces[0], 0, v);
    }
    forall v ensures v in t[1] <==> v in {0} {
      assert Adjacent(faces, 1, v) <==> FaceLinks(faces[0], 1, v);
      FaceLinksCases(faces[0], 1, v);
    }
    SameLinksSameTable(t, [{0, 1}, {0}]);
  }

  lemma LinkedBeforeAll(f: Face, u: nat, v: nat)
    ensures LinkedBefore(f, u, v, 3, 0) <==> FaceLinks(f, u, v)
  {
  }

  lemma LinkedBeforeNextRow(f: Face, u: nat, v: nat, i: nat)
    ensures LinkedBefore(f, u, v, i, 3) <==> LinkedBefore(f, u, v, i + 1, 0)
  {
  }

  lemma LinkedBeforeNext(f: Face, u: nat, v: nat, i: nat, j: nat)
    requires i < 3 && j < 3
    ensures LinkedBefore(f, u, v, i, j + 1) <==>
              LinkedBefore(f, u, v, i, j) || (i != j && f.Corner(i) == u && f.Corner(j) == v)
  {
    if i != j && f.Corner(i) == u && f.Corner(j) == v {
      assert LinkedBefore(f, u, v, i, j + 1);
    }
  }

  /** The double loop over corner positions `i != j` that adds `face[j]` to the
      neighbour set of `face[i]`, as `laplacian_smoothing` in mesh_io.py runs it. */
  method AddFaceLoop(t0: NeighborTable, f: Face) returns (t: NeighborTable)
    requires f.InRange(|t0|)
    ensures t == AddFace(t0, f)
  {
    t := t0;
    for i := 0 to 3
      invariant |t| == |t0|
      invariant forall u, v :: 0 <= u < |t| ==> (v in t[u] <==> v in t0[u] || LinkedBefore(f, u, v, i, 0))
    {
      for j := 0 to 3
        invariant |t| == |t0|
        invariant forall u, v :: 0 <= u < |t| ==> (v in t[u] <==> v in t0[u] || LinkedBefore(f, u, v, i, j))
      {
        if i != j {
          t := t[f.Corner(i) := t[f.Corner(i)] + {f.Corner(j)}];
        }
        forall u, v | 0 <= u < |t| {
          LinkedBeforeNext(f, u, v, i, j);
        }
      }
      forall u, v | 0 <= u < |t| {
        LinkedBeforeNextRow(f, u, v, i);
      }
    }
    forall u, v | 0 <= u < |t| {
      LinkedBeforeAll(f, u, v);
    }
    SameLinksSameTable(t, AddFace(t0, f));
  }

  /** The loop over the faces that fills the neighbour table, stopping at the
      first face with an out-of-range index. */
  method BuildNeighborsLoop(n: nat, faces: seq<Face>) returns (r: Result<NeighborTable>)
    ensures r == BuildNeighbors(n, faces)
  {
    var t := EmptyTable(n);
    for k := 0 to |faces|
      invariant BuildNeighbors(n, faces[..k]) == Success(t)
    {
      if !faces[k].InRange(n) {
        BuildNeighborsStops(n, faces, k);
        return Failure(FaceIndexOutOfRange(k));
      }
      BuildNeighborsNext(n, faces, k, t);
      t := AddFaceLoop(t, faces[k]);
    }
    assert faces[..|faces|] == faces;
    return Success(t);
  }

  /** Two tables of equal length with the same neighbour sets are equal. */
  lemma SameLinksSameTable(a: NeighborTable, b: NeighborTable)
    requires |a| == |b|
    requires forall u, v :: 0 <= u < |a| ==> (v in a[u] <==> v in b[u])
    ensures a == b
  {
    forall u | 0 <= u < |a| ensures a[u] == b[u] {
      assert forall v :: v in a[u] <==> v in b[u];
    }
  }
}
