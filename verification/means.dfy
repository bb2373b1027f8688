/** Sums and unweighted means of a scalar field over a set of vertex indices.
    Both the neighbour average of the smoother and the region average of the
    aggregator are a `Mean` of this kind. */
module Means {

  /** Every member of `s` indexes a field of length `m`. */
  ghost predicate Within(s: set<nat>, m: nat) {
    forall j :: j in s ==> j < m
  }

  /** The sum of `vals[j]` over the members `j < k` of `s`, added in increasing index order. */
  function SumBelow(s: set<nat>, vals: seq<real>, k: nat): real
    requires k <= |vals|
    decreases k
  {
    if k == 0 then 0.0
    else SumBelow(s, vals, k - 1) + (if k - 1 in s then vals[k - 1] else 0.0)
  }

  /** The number of members of `s` below `k`. */
  function CountBelow(s: set<nat>, k: nat): nat
    decreases k
  {
    if k == 0 then 0
    else CountBelow(s, k - 1) + (if k - 1 in s then 1 else 0)
  }

  /** The arithmetic mean of the field over the (non-empty) index set `s`:
      the value that, counted once for every member, gives the set's total. */
  function Mean(s: set<nat>, vals: seq<real>): (m: real)
    requires s != {} && Within(s, |vals|)
    ensures m * (|s| as real) == SumBelow(s, vals, |vals|)
  {
    SumBelow(s, vals, |vals|) / (|s| as real)
  }

  /** Reference definitions: the plain sum and the mean of a whole sequence. */
  function Sum(xs: seq<real>): real
    decreases |xs|
  {
    if |xs| == 0 then 0.0 else Sum(xs[..|xs| - 1]) + xs[|xs| - 1]
  }

  function Average(xs: seq<real>): real
    requires |xs| > 0
  {
    Sum(xs) / (|xs| as real)
  }

  /** `CountBelow` counts exactly the members of `s` below `k`. */
  lemma {:induction false} CountBelowIsCardinality(s: set<nat>, k: nat)
    ensures CountBelow(s, k) == |set j | j in s && j < k|
    decreases k
  {
    if k > 0 {
      CountBelowIsCardinality(s, k - 1);
      var below := set j | j in s && j < k - 1;
      var upTo := set j | j in s && j < k;
      if k - 1 in s {
        assert upTo == below + {k - 1};
        assert k - 1 !in below;
      } else {
        assert upTo == below;
      }
    }
  }

  /** When every member of `s` lies below `k`, `CountBelow` is the size of `s`. */
  lemma CountBelowAll(s: set<nat>, k: nat)
    requires Within(s, k)
    ensures CountBelow(s, k) == |s|
  {
    CountBelowIsCardinality(s, k);
    assert (set j | j in s && j < k) == s;
  }

  /** Only the members below `k` matter to `SumBelow`. */
  lemma {:induction false} SumBelowAgree(s: set<nat>, s': set<nat>, vals: seq<real>, k: nat)
    requires k <= |vals|
    requires forall j :: j < k ==> (j in s <==> j in s')
    ensures SumBelow(s, vals, k) == SumBelow(s', vals, k)
    decreases k
  {
    if k > 0 {
      SumBelowAgree(s, s', vals, k - 1);
    }
  }

  /** Order independence of the sum: any member `x` may be taken out first and
      the rest summed without it. */
  lemma {:induction false} SumBelowRemove(s: set<nat>, vals: seq<real>, k: nat, x: nat)
    requires k <= |vals| && x in s && x < k
    ensures SumBelow(s, vals, k) == vals[x] + SumBelow(s - {x}, vals, k)
    decreases k
  {
    if k - 1 == x {
      SumBelowAgree(s, s - {x}, vals, k - 1);
    } else {
      SumBelowRemove(s, vals, k - 1, x);
    }
  }

  /** `SumBelow` reads the field only at members of `s`. */
  lemma {:induction false} SumBelowLocal(s: set<nat>, vals: seq<real>, vals': seq<real>, k: nat)
    requires k <= |vals| && k <= |vals'|
    requires forall j :: j in s && j < k ==> vals[j] == vals'[j]
    ensures SumBelow(s, vals, k) == SumBelow(s, vals', k)
    decreases k
  {
    if k > 0 {
      SumBelowLocal(s, vals, vals', k - 1);
    }
  }

  /** Each summand lies in [lo, hi], so the sum lies between count * lo and count * hi. */
  lemma {:induction false} SumBelowBounds(s: set<nat>, vals: seq<real>, k: nat, lo: real, hi: real)
    requires k <= |vals|
    requires forall j :: j in s && j < k ==> lo <= vals[j] <= hi
    ensures (CountBelow(s, k) as real) * lo <= SumBelow(s, vals, k)
    ensures SumBelow(s, vals, k) <= (CountBelow(s, k) as real) * hi
    decreases k
  {
    if k > 0 {
      SumBelowBounds(s, vals, k - 1, lo, hi);
    }
  }

  /** When every index below `k` is in `s`, `SumBelow` is the plain sum of the prefix. */
  lemma {:induction false} SumBelowFull(s: set<nat>, vals: seq<real>, k: nat)
    requires k <= |vals|
    requires forall j :: 0 <= j < k ==> j in s
    ensures SumBelow(s, vals, k) == Sum(vals[..k])
    decreases k
  {
    if k > 0 {
      SumBelowFull(s, vals, k - 1);
      assert vals[..k][..k - 1] == vals[..k - 1];
    }
  }

  /** The sum of `vals[xs[i]]` over the entries of a list of indices, in list order. */
  function SumAt(xs: seq<nat>, vals: seq<real>): real
    requires forall i :: 0 <= i < |xs| ==> xs[i] < |vals|
    decreases |xs|
  {
    if |xs| == 0 then 0.0 else SumAt(xs[..|xs| - 1], vals) + vals[xs[|xs| - 1]]
  }

  /** Any duplicate-free list of the members of `s` (such as `list(neighbor_set)`)
      has as many entries as `s`, and summing along it gives the index-ordered sum. */
  lemma {:induction false} EnumerationSum(s: set<nat>, xs: seq<nat>, vals: seq<real>)
    requires Within(s, |vals|)
    requires forall i, j :: 0 <= i < j < |xs| ==> xs[i] != xs[j]
    requires forall x :: x in xs <==> x in s
    ensures forall i :: 0 <= i < |xs| ==> xs[i] < |vals|
    ensures |xs| == |s|
    ensures SumAt(xs, vals) == SumBelow(s, vals, |vals|)
    decreases |xs|
  {
    if |xs| > 0 {
      var x := xs[|xs| - 1];
      var init := xs[..|xs| - 1];
      assert x in s;
      forall y ensures y in init <==> y in s - {x} {
        if y in init {
          var i :| 0 <= i < |init| && init[i] == y;
          assert xs[i] == y;
        }
        if y in s - {x} {
          var i :| 0 <= i < |xs| && xs[i] == y;
          assert i != |xs| - 1;
          assert init[i] == y;
        }
      }
      EnumerationSum(s - {x}, init, vals);
      SumBelowRemove(s, vals, |vals|, x);
    } else {
      assert s == {};
      SumBelowBounds(s, vals, |vals|, 0.0, 0.0);
    }
  }

  /** The mean lies between the least and the greatest value it averages. */
  lemma MeanBounds(s: set<nat>, vals: seq<real>, lo: real, hi: real)
    requires s != {} && Within(s, |vals|)
    requires forall j :: j in s ==> lo <= vals[j] <= hi
    ensures lo <= Mean(s, vals) <= hi
  {
    SumBelowBounds(s, vals, |vals|, lo, hi);
    CountBelowAll(s, |vals|);
    QuotientBounds(SumBelow(s, vals, |vals|), |s| as real, lo, hi);
  }

  /** Dividing by a positive count keeps a total between `c * lo` and `c * hi`
      between `lo` and `hi`. */
  lemma QuotientBounds(total: real, c: real, lo: real, hi: real)
    requires c > 0.0
    requires c * lo <= total <= c * hi
    ensures lo <= total / c <= hi
  {
    assert total / c - lo == (total - c * lo) / c;
    assert hi - total / c == (c * hi - total) / c;
  }

  /** The mean of a field that is constant on `s` is that constant. */
  lemma MeanConstant(s: set<nat>, vals: seq<real>, c: real)
    requires s != {} && Within(s, |vals|)
    requires forall j :: j in s ==> vals[j] == c
    ensures Mean(s, vals) == c
  {
    MeanBounds(s, vals, c, c);
  }

  /** The mean over every index of the field is the plain average of the field. */
  lemma MeanOfAll(s: set<nat>, vals: seq<real>)
    requires |vals| > 0
    requires forall j: nat :: j in s <==> j < |vals|
    ensures s != {} && Within(s, |vals|)
    ensures Mean(s, vals) == Average(vals)
  {
    assert 0 in s;
    SumBelowFull(s, vals, |vals|);
    assert vals[..|vals|] == vals;
    CountBelowAll(s, |vals|);
    CountBelowFull(s, |vals|);
  }

  /** When every index below `k` is in `s`, `CountBelow` is `k`. */
  lemma {:induction false} CountBelowFull(s: set<nat>, k: nat)
    requires forall j :: 0 <= j < k ==> j in s
    ensures CountBelow(s, k) == k
    decreases k
  {
    if k > 0 {
      CountBelowFull(s, k - 1);
    }
  }
}
