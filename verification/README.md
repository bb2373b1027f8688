# Mesh smoothing and region averaging, modelled in Dafny

This project models the two computations in `mesh_io.py` of a cortical-surface toolkit.

- **Laplacian smoothing** (`laplacian_smoothing`). The routine builds a neighbour set for every
  vertex from the triangle list. It then runs `iterations` synchronous passes. In each pass,
  every vertex that has neighbours moves a fraction `lambda_factor` toward the unweighted mean
  of its neighbours' values from the previous pass. Vertices without neighbours keep their value.
- **Region averaging** (the loop in `extract_surface_roi_feature`). For every distinct label
  other than the background label `-1`, it records the mean feature value over the vertices
  that carry that label.

Scalars are `real`, so every property is exact. The modules follow the structure of the code:

- `Errors` (errors.dfy): the `Result` type and the failures the code raises.
- `Means` (means.dfy): the sum and unweighted mean of a field over a set of vertex indices.
  Both the neighbour average and the region average are this `Mean`.
- `Neighbors` (neighbors.dfy): the face type, the neighbour table as a fold over the faces,
  and the double loop over corner positions that the code runs.
- `Smoothing` (smoothing.dfy): the single pass `Step`, its `k`-fold iterate, the whole routine
  `LaplacianSmoothing`, and the loops of the code as methods proved equal to it.
- `RegionAverage` (region_average.dfy): the label-to-mean map and the loop of the code.

Each operation is written twice. A pure function states what it computes. A method follows the
loops of the code and is proved equal to that function. Lemmas relate the function to
independent facts: the set-theoretic description of the neighbour sets, symmetry, fixed points,
identities, bounds, and concrete scenarios.

Error behaviour follows the code:

- A face index `>= n` (`n` is the vertex count) fails with `FaceIndexOutOfRange`. It names the
  first face holding such an index. The code raises there whichever corner is bad, because
  every corner position is visited as `i`. The table is built before any pass, so this happens
  whatever `iterations` is.
- A non-positive `iterations` runs no pass and returns the field unchanged, because `range` is
  empty. No error is raised.
- A pass reads the scalar at every vertex that occurs in a face. If such a vertex has no entry
  in `scalar`, the call fails with `ScalarIndexOutOfRange`. Entries of `scalar` beyond the
  vertex count are copied through unchanged.
- In the region average, the boolean mask must have the feature's length. Otherwise the call
  fails with `MaskLengthMismatch`, but only once a non-background label is processed.

Some inputs that might be expected to fail, or to be treated specially, are not:

- A negative `iterations` runs no pass and returns the field unchanged, because `range` is
  empty (mesh_io.py:106). No argument check rejects it.
- A scalar field whose length differs from the vertex count is not rejected up front. The call
  fails only as described above, when a pass reads a missing entry (mesh_io.py:111-113).
- Adjacency comes from distinct corner *positions* (`i != j`, mesh_io.py:98), so a degenerate
  face `(0, 0, 1)` makes vertex 0 its own neighbour (`DegenerateFaceSelfNeighbor`).

## Model

| member | source | states |
|---|---|---|
| Neighbors.BuildNeighbors | mesh_io.py:92-99 | builds one set per vertex. `v` is in the set of `u` iff some face has `u` and `v` at two different corner positions. It fails iff some face holds an index `>= n`, and the error names the first such face |
| Neighbors.AddFace | mesh_io.py:95-99 | one face adds `v` to the set of `u` exactly for the corner-position pairs `i != j` with `face[i] = u` and `face[j] = v`. The other sets are untouched |
| Neighbors.AddFaceLoop | mesh_io.py:96-99 | the double loop over corner positions, skipping `i == j`, yields the same table as the per-face update |
| Neighbors.BuildNeighborsLoop | mesh_io.py:94-99 | the loop over faces yields the same table or the same error as the fold, stopping at the first out-of-range face |
| Neighbors.NeighborsSymmetric | mesh_io.py:95-99 | `v` is a neighbour of `u` iff `u` is a neighbour of `v` |
| Neighbors.NeighborsInRange | mesh_io.py:94-99 | every neighbour is a vertex index below the vertex count |
| Neighbors.IsolatedIffAbsent | mesh_io.py:94-99 | in the table the face loop builds (any table with the adjacency characterisation of `BuildNeighbors`), a vertex has an empty neighbour set iff no face mentions it |
| Neighbors.DegenerateFaceSelfNeighbor | mesh_io.py:96-99 | the face `(0, 0, 1)` gives vertex 0 the set `{0, 1}` and vertex 1 the set `{0}` |
| Smoothing.LaplacianSmoothing | mesh_io.py:78-116 | succeeds iff every face index is below the vertex count and, when `iterations > 0`, below the scalar length. If some face index is not below the vertex count, the error names the first such face. Otherwise the failure is a scalar-index error. The result has the scalar's length, and it is the input itself when `iterations <= 0` |
| Smoothing.LaplacianSmoothingDefaults | mesh_io.py:78 | a call with the default arguments (`iterations = 10`, `lambda_factor = 0.5`) succeeds iff every face index is below both the vertex count and the scalar length, and the result has the scalar's length |
| Smoothing.SmoothingBounds | mesh_io.py:78-116 | maximum principle for the whole routine: for `0 <= lambda_factor <= 1`, every value of a successful result stays within any bounds that hold for the input field |
| Smoothing.Step | mesh_io.py:107-114 | one synchronous pass computed from the old field only. A vertex with neighbours closes the gap to its neighbour mean by the fraction `lambda_factor`: its distance to the mean is multiplied by `1 - lambda_factor`. A vertex without neighbours keeps its value. The result has the field's length |
| Smoothing.StepBounds | mesh_io.py:107-114 | for `0 <= lambda_factor <= 1`, one pass keeps every value within bounds that the old field respects |
| Smoothing.Iterate | mesh_io.py:106-114 | `k` passes of `Step`, each computed from the field the previous pass left. The result has the field's length. What the passes preserve is stated by the `Iterate*` lemmas below |
| Smoothing.StepTowardMean | mesh_io.py:109-113 | a vertex with neighbours moves a fraction `lambda_factor` toward the unweighted mean of its neighbours: its distance to that mean is multiplied by `1 - lambda_factor`. With `lambda_factor = 1` it lands on the mean |
| Smoothing.IterateZeroLambda | mesh_io.py:106-114 | with `lambda_factor = 0`, any number of passes leaves the field unchanged |
| Smoothing.IterateIsolated | mesh_io.py:107-109 | a vertex with an empty neighbour set keeps its initial value through any number of passes |
| Smoothing.IterateConstant | mesh_io.py:106-114 | a constant field is a fixed point of smoothing |
| Smoothing.IterateBounds | mesh_io.py:106-114 | maximum principle: for `0 <= lambda_factor <= 1`, every smoothed value stays within any bounds that hold for the initial field |
| Smoothing.IterateAdd | mesh_io.py:106-114 | `a` passes followed by `b` passes equal `a + b` passes: the result is the `k`-fold iterate of one step function |
| Smoothing.SmoothingZeroLambda | mesh_io.py:104-116 | `lambda_factor = 0` returns the input field unchanged whenever the call succeeds |
| Smoothing.SmoothingKeepsAbsentVertex | mesh_io.py:94-116 | a vertex that no face mentions keeps its input value in the result |
| Smoothing.SmoothingPass | mesh_io.py:107-114 | one pass that starts from a copy and overwrites vertex by vertex, reading only the previous field, gives the synchronous step. This holds for any visiting order that reaches every vertex with neighbours |
| Smoothing.RunPasses | mesh_io.py:104-116 | running the pass loop `k` times in index order gives the `k`-fold iterate |
| Smoothing.Smooth | mesh_io.py:78-116 | the procedure (face loop, then the pass loop), with the scalar-range check hoisted before the passes, returns exactly the result or error of `LaplacianSmoothing` |
| Smoothing.SharedEdgeNeighbors | mesh_io.py:92-99 | the triangles `(0,1,2)` and `(1,2,3)` give the neighbour sets `{1,2}`, `{0,2,3}`, `{0,1,3}`, `{1,2}` |
| Smoothing.SharedEdgeScenario | mesh_io.py:104-116 | on that mesh, the field `[0,10,10,0]` with `lambda_factor = 0.5` and one pass becomes `[5, 20/3, 20/3, 5]` |
| Means.Mean | mesh_io.py:111 | the unweighted mean over a non-empty index set (also the region mean at mesh_io.py:42): the mean times the set's size is the sum of the values over the set |
| Means.SumBelowRemove | mesh_io.py:111 | any member can be taken out of the index-ordered set sum first and added separately. This is the step that makes the sum independent of order |
| Means.EnumerationSum | mesh_io.py:101-111 | any duplicate-free list of a set's members, such as the one `list(neighbor_set)` hands to `np.mean`, has as many entries as the set. Summing along it gives the same total as the index-ordered sum over the set |
| Means.MeanBounds | mesh_io.py:111 | an unweighted mean lies between any lower and upper bounds of the values it averages |
| RegionAverage.RegionMeans | mesh_io.py:38-44 | on success, the keys are exactly the labels present other than `-1`. Each value is the mean of the feature over the positions carrying that label. The call fails iff some non-background label exists and the mask and feature lengths differ |
| RegionAverage.SingleRegion | mesh_io.py:38-42 | if every vertex carries one non-background label, the map has that single key, and its value is the plain average of the whole feature |
| RegionAverage.RegionMeanBounds | mesh_io.py:42 | a region's mean lies within any bounds that hold for that region's feature values |
| RegionAverage.RegionMeanLocal | mesh_io.py:42 | a region's mean depends only on the feature values at that region's vertices |
| RegionAverage.MaskedMean | mesh_io.py:42 | summing and counting the masked values in one pass gives the region mean |
| RegionAverage.ExtractRegionMeans | mesh_io.py:38-44 | the loop over the distinct labels, visited in any order and skipping `-1`, returns exactly the result or error of `RegionMeans` |

## Left out

- File loading (`read_raw`, `load_freesurfer_annot`, `load_freesurfer_n`, `load_freesurfer2pyvista`) is thin wrapping of external libraries. This includes the clipping of scalars on load and the unresolved `load_mgh_scalers` call. The feature and label arrays are parameters instead.
- mesh_vis.py (Plotly rendering, camera presets, subplot layout, image export) has no algorithmic content.
- Region names: the result is keyed by the label integer, not by the string `ctx-{hemi}-{name}`. Byte decoding, key formatting, and two labels with the same name collapsing into one key are not modelled. A failing name lookup (a label beyond the name table) is not modelled either.
- Vertex coordinates: only the vertex count `n` is used by the code, so the model takes `n` in place of the vertex array.
- Floating point: values are `real`. Rounding, the order in which NumPy adds up a mean, NaN and infinity are not modelled.
- Integer scalar arrays: the model assumes a floating dtype for `scalar`. `np.copy` keeps the input's dtype (mesh_io.py:104, 107), so for an integer array every assignment at mesh_io.py:113 truncates toward zero on every pass. For example, `[0, 10, 10, 0]` given as integers in the `SharedEdgeScenario` setting gives `[5, 6, 6, 5]`, not `[5, 20/3, 20/3, 5]`.
- Negative indices: face indices are `nat`. Python's wrap-around for negative face indices is out of scope, and so is wrap-around for negative labels used as name-table indices.
- Non-triangular faces and a non-integer `iterations` (a `TypeError` in the code) are not modelled.
- Timing of the scalar-index error: the code raises it partway through the first pass, while the model checks coverage before any pass. Both return no field and the same kind of error, so nothing observable differs.
