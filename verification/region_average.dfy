/** Per-region averaging of a per-vertex feature (the loop of
    `extract_surface_roi_feature`, mesh_io.py): for every distinct label other
    than the background label, the mean of the feature over the vertices that
    carry it. The result is keyed by the label itself. */
module RegionAverage {
  import opened Errors
  import opened Means

  /** The label of vertices that belong to no region. */
  const Background: int := -1

  /** The positions of the vertices that carry label `l`. */
  function Positions(labels: seq<int>, l: int): set<nat> {
    set k: nat | k < |labels| && labels[k] == l
  }

  /** The distinct labels present, background excluded. */
  function Regions(labels: seq<int>): set<int> {
    set k | 0 <= k < |labels| && labels[k] != Background :: labels[k]
  }

  /** Every region has at least one vertex, and all its positions index the labels. */
  lemma RegionsHavePositions(labels: seq<int>)
    ensures forall l :: l in Regions(labels) ==>
              Positions(labels, l) != {} && Within(Positions(labels, l), |labels|)
  {
    forall l | l in Regions(labels)
      ensures Positions(labels, l) != {} && Within(Positions(labels, l), |labels|)
    {
      var k :| 0 <= k < |labels| && labels[k] != Background && labels[k] == l;
      assert k in Positions(labels, l);
    }
  }

  /** The label-to-mean map. A boolean mask whose length differs from the
      feature's fails, but only once some non-background label is processed. */
  function RegionMeans(feature: seq<real>, labels: seq<int>): (r: Result<map<int, real>>)
    ensures r.Success? <==>
              |feature| == |labels| || forall k :: 0 <= k < |labels| ==> labels[k] == Background
    ensures r.Failure? ==> r.error == MaskLengthMismatch
    ensures r.Success? ==> forall l :: l in r.value <==> l != Background && l in labels
    ensures r.Success? ==> Background !in r.value
    ensures r.Success? ==> forall l :: l in r.value ==>
              && Positions(labels, l) != {}
              && Within(Positions(labels, l), |feature|)
              && r.value[l] == Mean(Positions(labels, l), feature)
  {
    var regions := Regions(labels);
    if regions != {} && |feature| != |labels| then
      assert forall k :: 0 <= k < |labels| && labels[k] != Background ==> labels[k] in regions;
      Failure(MaskLengthMismatch)
    else
      RegionsHavePositions(labels);
      assert forall k :: 0 <= k < |labels| && labels[k] != Background ==> labels[k] in regions;
      Success(map l | l in regions :: Mean(Positions(labels, l), feature))
  }

  /** When every vertex carries the same non-background label, the one entry is
      the plain average of the whole feature. */
  lemma SingleRegion(feature: seq<real>, labels: seq<int>, l: int)
    requires |feature| == |labels| > 0
    requires l != Background
    requires forall k :: 0 <= k < |labels| ==> labels[k] == l
    ensures RegionMeans(feature, labels) == Success(map[l := Average(feature)])
  {
    var r := RegionMeans(feature, labels).value;
    assert labels[0] == l;
    forall j: nat ensures j in Positions(labels, l) <==> j < |feature| {
      if j < |feature| {
        assert labels[j] == l;
      }
    }
    MeanOfAll(Positions(labels, l), feature);
    assert r.Keys == {l};
    assert r[l] == Average(feature);
    assert r == map[l := Average(feature)];
  }

  /** Each region's mean lies between bounds that the region's own values respect. */
  lemma RegionMeanBounds(feature: seq<real>, labels: seq<int>, l: int, lo: real, hi: real)
    requires RegionMeans(feature, labels).Success?
    requires l in RegionMeans(feature, labels).value
    requires forall k :: 0 <= k < |labels| && labels[k] == l ==> lo <= feature[k] <= hi
    ensures lo <= RegionMeans(feature, labels).value[l] <= hi
  {
    MeanBounds(Positions(labels, l), feature, lo, hi);
  }

  /** A region's mean depends only on the feature values of that region's vertices. */
  lemma RegionMeanLocal(f1: seq<real>, f2: seq<real>, labels: seq<int>, l: int)
    requires RegionMeans(f1, labels).Success? && RegionMeans(f2, labels).Success?
    requires |f1| == |f2|
    requires l in RegionMeans(f1, labels).value
    requires forall k :: 0 <= k < |labels| && labels[k] == l ==> f1[k] == f2[k]
    ensures l in RegionMeans(f2, labels).value
    ensures RegionMeans(f1, labels).value[l] == RegionMeans(f2, labels).value[l]
  {
    SumBelowLocal(Positions(labels, l), f1, f2, |f1|);
  }

  /** `np.mean(feature[labels == l])`: one pass summing and counting the masked values. */
  method MaskedMean(feature: seq<real>, labels: seq<int>, l: int) returns (m: real)
    requires |feature| == |labels| && l in labels
    ensures Positions(labels, l) != {} && Within(Positions(labels, l), |feature|)
    ensures m == Mean(Positions(labels, l), feature)
  {
    var s := Positions(labels, l);
    var sum := 0.0;
    var count := 0;
    for k := 0 to |labels|
      invariant sum == SumBelow(s, feature, k)
      invariant count == CountBelow(s, k)
    {
      if labels[k] == l {
        assert k in s;
        sum := sum + feature[k];
        count := count + 1;
      } else {
        assert k !in s;
      }
    }
    var k0 :| 0 <= k0 < |labels| && labels[k0] == l;
    assert k0 in s;
    CountBelowAll(s, |labels|);
    m := sum / (count as real);
  }

  /** The loop of `extract_surface_roi_feature` (mesh_io.py): visit the distinct labels in any order, skip the
      background, and record the masked mean of every other label. */
  method ExtractRegionMeans(feature: seq<real>, labels: seq<int>) returns (r: Result<map<int, real>>)
    ensures r == RegionMeans(feature, labels)
  {
    var distinct := set k | 0 <= k < |labels| :: labels[k];
    var remaining := distinct;
    var acc: map<int, real> := map[];
    while remaining != {}
      invariant remaining <= distinct
      invariant acc.Keys == (distinct - remaining) - {Background}
      invariant forall l :: l in acc ==>
                  && |feature| == |labels|
                  && Positions(labels, l) != {}
                  && Within(Positions(labels, l), |feature|)
                  && acc[l] == Mean(Positions(labels, l), feature)
      decreases remaining
    {
      var l :| l in remaining;
      remaining := remaining - {l};
      if l != Background {
        var k :| 0 <= k < |labels| && labels[k] == l;
        assert l in Regions(labels);
        if |feature| != |labels| {
          return Failure(MaskLengthMismatch);
        }
        var m := MaskedMean(feature, labels, l);
        acc := acc[l := m];
      }
    }
    assert acc.Keys == Regions(labels);
    if acc.Keys != {} {
      var l :| l in acc;
      assert |feature| == |labels|;
    }
    var expected := RegionMeans(feature, labels);
    assert expected.Success?;
    assert acc == expected.value;
    return Success(acc);
  }
}
