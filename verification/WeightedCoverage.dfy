/**
  Coverage of the weighted hits that the loop of examples/conformal_reproduction/run.py counts, on all ways to
  leave one observation of a list out.
*/
module WeightedCoverage {
  import opened Conformal
  import opened ConformalSimulation

  /** What the loop is run with. */
  datatype Shift = Shift(source: real, target: real, alpha: real)

  predicate Valid(z: Shift) {
    Probabilities(z.source, z.target, z.alpha)
  }

  function Ratio(z: Shift, o: Observation): (ratio: real)
    requires Valid(z)
    ensures ratio > 0.0
  {
    DensityRatio(o.positive, z.source, z.target)
  }

  /** What the repetition with this calibration and test point adds to the weighted counter. */
  function Hit(z: Shift, calibration: seq<Observation>, test: Observation): nat
    requires Valid(z)
  {
    Contribution(Repetition(calibration, test), z.source, z.target, z.alpha).weightedHits
  }

  // ---------------------------------------------------------------------------------------------
  // Leaving one observation out
  // ---------------------------------------------------------------------------------------------

  function Without(os: seq<Observation>, i: nat): seq<Observation>
    requires i < |os|
  {
    os[..i] + os[i + 1..]
  }

  function Weigh(ratio: real, hit: nat): real {
    ratio * hit as real
  }

  /** The density ratios of the first `k` observations. */
  function RatioSum(z: Shift, os: seq<Observation>, k: nat): real
    requires Valid(z) && k <= |os|
  {
    if k == 0 then 0.0 else RatioSum(z, os, k - 1) + Ratio(z, os[k - 1])
  }

  /** The density ratios of those of them that are hit when all others calibrate. */
  function HitSum(z: Shift, os: seq<Observation>, k: nat): real
    requires Valid(z) && k <= |os|
  {
    if k == 0 then 0.0
    else HitSum(z, os, k - 1) + Weigh(Ratio(z, os[k - 1]), Hit(z, Without(os, k - 1), os[k - 1]))
  }

  function Points(z: Shift, os: seq<Observation>): (ps: seq<Point>)
    requires Valid(z)
    ensures |ps| == |os| && Positive(ps)
  {
    seq(|os|, i requires 0 <= i < |os| => Weighted(os[i], z.source, z.target))
  }

  /** The first prefix to reach the target. */
  lemma FirstReach(ps: seq<Point>, target: real, k: nat) returns (index: nat)
    requires k <= |ps| && Mass(ps[..k], All) < target
    ensures index <= |ps| && Mass(ps[..index], All) < target
    ensures index < |ps| ==> target <= Mass(ps[..index + 1], All)
    decreases |ps| - k
  {
    if k == |ps| || target <= Mass(ps[..k + 1], All) {
      index := k;
    } else {
      index := FirstReach(ps, target, k + 1);
    }
  }

  lemma QuantileExists(ps: seq<Point>, target: real) returns (radius: Radius)
    requires Positive(ps) && target > 0.0
    ensures IsQuantile(ps, target, radius)
  {
    var sorted := Sort(ps);
    assert sorted[..0] == [] && Mass([], All) == 0.0;
    SortKeepsPositive(ps);
    hide Mass, Sort, IsQuantile;
    var index := FirstReach(sorted, target, 0);
    PrefixMassLocates(sorted, target, index);
    radius := if index < |sorted| then Finite(sorted[index].score) else Infinite;
    SortKeepsQuantile(ps, target, radius);
  }

  lemma SortKeepsPositive(ps: seq<Point>)
    requires Positive(ps)
    ensures Positive(Sort(ps))
  {
  }

  lemma OthersPositive(ps: seq<Point>, i: nat)
    requires Positive(ps) && i < |ps|
    ensures Positive(Others(ps, i))
  {
    assert forall p <- Others(ps, i) :: p in ps;
  }

  lemma TargetPositive(ps: seq<Point>, testWeight: real, alpha: real)
    requires Positive(ps) && testWeight > 0.0 && 0.0 < alpha < 1.0
    ensures Target(ps, testWeight, alpha) > 0.0
  {
    MassMonotone(ps, All, All);
    hide Mass, Share;
    ShareBounds(alpha, Mass(ps, All) + testWeight);
  }

  /** Leave-one-out radii exist. */
  lemma LeaveOneOutExists(ps: seq<Point>, alpha: real, n: nat) returns (radii: seq<Radius>)
    requires Positive(ps) && 0.0 < alpha < 1.0 && n <= |ps|
    ensures |radii| == n
    ensures forall i :: 0 <= i < n ==> IsQuantile(Others(ps, i), Target(Others(ps, i), ps[i].weight, alpha), radii[i])
  {
    hide IsQuantile, Target, Others;
    if n == 0 {
      radii := [];
    } else {
      var front := LeaveOneOutExists(ps, alpha, n - 1);
      OthersPositive(ps, n - 1);
      TargetPositive(Others(ps, n - 1), ps[n - 1].weight, alpha);
      var last := QuantileExists(Others(ps, n - 1), Target(Others(ps, n - 1), ps[n - 1].weight, alpha));
      radii := front + [last];
    }
  }

  /** An observation is hit exactly when its radius covers it. */
  lemma HitIsCovered(z: Shift, os: seq<Observation>, i: nat, radius: Radius)
    requires Valid(z) && i < |os|
    requires var ps := Points(z, os); IsQuantile(Others(ps, i), Target(Others(ps, i), ps[i].weight, z.alpha), radius)
    ensures Hit(z, Without(os, i), os[i]) == if Covers(radius, os[i].score) then 1 else 0
  {
    var ps, r := Points(z, os), Repetition(Without(os, i), os[i]);
    OthersPositive(ps, i);
    assert Calibration(r, z.source, z.target) == Others(ps, i);
    hide Mass, Share, DensityRatio, IsQuantile, Count, Rank, TestMassDominates, Calibration;
    CoverageCriterion(Others(ps, i), Target(Others(ps, i), ps[i].weight, z.alpha), radius, os[i].score);
  }

  lemma MassLast(ps: seq<Point>, p: Point)
    ensures Mass(ps + [p], All) == Mass(ps, All) + p.weight
  {
    MassConcat(ps, [p], All);
    assert Mass([p], All) == p.weight + Mass([], All);
    hide Mass;
  }

  lemma SliceLast<T>(xs: seq<T>, k: nat)
    requires 0 < k <= |xs|
    ensures xs[..k] == xs[..k - 1] + [xs[k - 1]]
  {
  }

  lemma PointAt(z: Shift, os: seq<Observation>, i: nat)
    requires Valid(z) && i < |os|
    ensures Points(z, os)[i] == Point(os[i].score, Ratio(z, os[i]))
  {
    hide DensityRatio;
  }

  lemma {:induction false} RatioSumIsMass(z: Shift, os: seq<Observation>, k: nat)
    requires Valid(z) && k <= |os|
    ensures RatioSum(z, os, k) == Mass(Points(z, os)[..k], All)
  {
    var ps := Points(z, os);
    hide Mass, Ratio, Points;
    if k > 0 {
      RatioSumIsMass(z, os, k - 1);
      SliceLast(ps, k);
      PointAt(z, os, k - 1);
      MassLast(ps[..k - 1], ps[k - 1]);
    } else {
      MassNone(ps[..0], All);
    }
  }

  function CoveredUpTo(ps: seq<Point>, radii: seq<Radius>, k: nat): real
    requires k <= |ps| == |radii|
  {
    if k == 0 then 0.0
    else CoveredUpTo(ps, radii, k - 1) + if Covers(radii[k - 1], ps[k - 1].score) then ps[k - 1].weight else 0.0
  }

  lemma {:induction false} CoveredUpToIs(ps: seq<Point>, radii: seq<Radius>, k: nat)
    requires k <= |ps| == |radii|
    ensures CoveredUpTo(ps, radii, k) == CoveredWeight(ps[..k], radii[..k])
  {
    if k > 0 {
      hide CoveredWeight, Covers;
      CoveredUpToIs(ps, radii, k - 1);
      SliceLast(ps, k);
      SliceLast(radii, k);
      CoveredWeightSnoc(ps[..k - 1], radii[..k - 1], ps[k - 1], radii[k - 1]);
    }
  }

  /** The i-th observation is hit exactly when its radius covers it. */
  predicate Agrees(z: Shift, os: seq<Observation>, radii: seq<Radius>, i: nat)
    requires Valid(z) && |radii| == |os|
  {
    i < |os| ==> Hit(z, Without(os, i), os[i]) == if Covers(radii[i], os[i].score) then 1 else 0
  }

  lemma WeighHit(ratio: real)
    ensures Weigh(ratio, 1) == ratio && Weigh(ratio, 0) == 0.0
  {
  }

  lemma HitSumStep(z: Shift, os: seq<Observation>, radii: seq<Radius>, k: nat)
    requires Valid(z) && |radii| == |os| && 0 < k <= |os| && Agrees(z, os, radii, k - 1)
    ensures HitSum(z, os, k) - HitSum(z, os, k - 1)
         == CoveredUpTo(Points(z, os), radii, k) - CoveredUpTo(Points(z, os), radii, k - 1)
  {
    hide Hit, Ratio, Points, Without, Covers, Weigh;
    PointAt(z, os, k - 1);
    WeighHit(Ratio(z, os[k - 1]));
  }

  lemma {:induction false} HitSumIsCovered(z: Shift, os: seq<Observation>, radii: seq<Radius>, k: nat)
    requires Valid(z) && |radii| == |os| && k <= |os|
    requires forall i: nat :: i < |os| ==> Agrees(z, os, radii, i)
    ensures HitSum(z, os, k) == CoveredUpTo(Points(z, os), radii, k)
  {
    if k > 0 {
      HitSumIsCovered(z, os, radii, k - 1);
      HitSumStep(z, os, radii, k);
      hide Agrees, HitSum, CoveredUpTo, Points;
    }
  }

  /** On all ways to leave one observation out, the hit ones carry at least 1 - alpha of the density ratios. */
  lemma LeaveOneOutHits(z: Shift, os: seq<Observation>)
    requires Valid(z)
    ensures HitSum(z, os, |os|) >= Share(z.alpha, RatioSum(z, os, |os|))
  {
    var ps := Points(z, os);
    hide Hit, Share, Mass, CoveredWeight, CoveredUpTo, HitSum, RatioSum, IsQuantile, Target, Points, Without, Others;
    var radii := LeaveOneOutExists(ps, z.alpha, |ps|);
    forall i: nat | i < |os| ensures Agrees(z, os, radii, i) { HitIsCovered(z, os, i, radii[i]); }
    CoverageTheorem(ps, z.alpha, radii);
    hide Agrees, LeaveOneOut;
    RatioSumIsMass(z, os, |os|);
    HitSumIsCovered(z, os, radii, |os|);
    CoveredUpToIs(ps, radii, |os|);
    assert ps[..|os|] == ps && radii[..|os|] == radii;
  }
}
