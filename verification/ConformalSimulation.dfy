/**
  The simulation loop of examples/conformal_reproduction/run.py, with the draws as parameters, and what its
  three counters mean.
*/
module ConformalSimulation {
  import opened Reals
  import opened Conformal

  datatype Observation = Observation(positive: bool, score: real)
  datatype Result<T> = Ok(value: T) | ValueError

  // ---------------------------------------------------------------------------------------------
  // The simulation loop
  // ---------------------------------------------------------------------------------------------

  /** The random draws of one repetition. */
  datatype Repetition = Repetition(calibration: seq<Observation>, test: Observation)

  /** The known density ratio of the target to the source covariate. */
  function DensityRatio(positive: bool, source: real, target: real): (ratio: real)
    requires 0.0 < source < 1.0 && 0.0 < target < 1.0
    ensures ratio > 0.0
  {
    if positive then target / source else (1.0 - target) / (1.0 - source)
  }

  /** The mean of a quantity over the covariate, which is positive with this probability. */
  function Expected(probability: real, whenPositive: real, otherwise: real): real {
    probability * whenPositive + (1.0 - probability) * otherwise
  }

  lemma CancelRatio(p: real, q: real, x: real)
    requires p > 0.0
    ensures p * ((q / p) * x) == q * x
  {
  }

  /** Weighting by the ratio turns source means into target means; with f = 1 the weights average to one. */
  lemma RatioReweights(source: real, target: real, f1: real, f0: real)
    requires 0.0 < source < 1.0 && 0.0 < target < 1.0
    ensures Expected(source, DensityRatio(true, source, target) * f1, DensityRatio(false, source, target) * f0)
         == Expected(target, f1, f0)
  {
    CancelRatio(source, target, f1);
    CancelRatio(1.0 - source, 1.0 - target, f0);
  }

  function Weighted(o: Observation, source: real, target: real): Point
    requires 0.0 < source < 1.0 && 0.0 < target < 1.0
  {
    Point(o.score, DensityRatio(o.positive, source, target))
  }

  function Calibration(r: Repetition, source: real, target: real): (ps: seq<Point>)
    requires 0.0 < source < 1.0 && 0.0 < target < 1.0
    ensures |ps| == |r.calibration| && Positive(ps)
  {
    seq(|r.calibration|, i requires 0 <= i < |r.calibration| => Weighted(r.calibration[i], source, target))
  }

  datatype Counters = Counters(weightedHits: nat, ordinaryHits: nat, infinite: nat)

  /** What one repetition contributes, stated by masses and counts, without radii. */
  function Contribution(r: Repetition, source: real, target: real, alpha: real): Counters
    requires 0.0 < source < 1.0 && 0.0 < target < 1.0
  {
    var ps := Calibration(r, source, target);
    var test := Weighted(r.test, source, target);
    Counters(
      if Mass(ps, Below(test.score)) < Target(ps, test.weight, alpha) then 1 else 0,
      if Count(ps, Below(test.score)) < Rank(|ps|, alpha) then 1 else 0,
      if TestMassDominates(alpha, test.weight, Mass(ps, All)) then 1 else 0)
  }

  function Contributions(rs: seq<Repetition>, source: real, target: real, alpha: real): Counters
    requires 0.0 < source < 1.0 && 0.0 < target < 1.0
  {
    if rs == [] then Counters(0, 0, 0)
    else
      var last := Contribution(rs[|rs| - 1], source, target, alpha);
      var init := Contributions(rs[..|rs| - 1], source, target, alpha);
      Counters(init.weightedHits + last.weightedHits,
               init.ordinaryHits + last.ordinaryHits,
               init.infinite + last.infinite)
  }

  /** The ordinary radius covers a score exactly when fewer scores than its rank lie below it. */
  lemma OrdinaryCriterion(ps: seq<Point>, rank: int, radius: Radius, score: real)
    requires IsOrderStatistic(ps, rank, radius)
    ensures Covers(radius, score) <==> Count(ps, Below(score)) < rank
  {
    var unit := Unit(ps);
    UnitMass(ps, Below(score));
    UnitMass(ps, All);
    CountAll(ps);
    if radius.Finite? {
      UnitMass(ps, Below(radius.value));
      UnitMass(ps, UpTo(radius.value));
      var i :| 0 <= i < |ps| && ps[i].score == radius.value;
      assert unit[i] in unit;
    }
    CoverageCriterion(unit, rank as real, radius, score);
  }

  predicate Probabilities(source: real, target: real, alpha: real) {
    0.0 < source < 1.0 && 0.0 < target < 1.0 && 0.0 < alpha < 1.0
  }

  /** One pass of the repetition loop: its increments of the three counters. */
  method Repeat(r: Repetition, source: real, target: real, alpha: real) returns (hits: Counters)
    requires Probabilities(source, target, alpha)
    ensures hits == Contribution(r, source, target, alpha)
  {
    hide Share, Count, Mass, Rank, DensityRatio, IsQuantile, IsOrderStatistic, TestMassDominates;
    var calibration: seq<Point> := [];
    for j := 0 to |r.calibration|
      invariant |calibration| == j
      invariant calibration == Calibration(r, source, target)[..j]
    {
      calibration := calibration + [Weighted(r.calibration[j], source, target)];
    }
    assert calibration == Calibration(r, source, target);
    var test := Weighted(r.test, source, target);
    var weighted, ordinary := Radii(calibration, test.weight, alpha);
    CoverageCriterion(calibration, Target(calibration, test.weight, alpha), weighted, test.score);
    OrdinaryCriterion(calibration, Rank(|calibration|, alpha), ordinary, test.score);
    InfiniteExactly(calibration, test.weight, alpha, weighted);
    hits := Counters(if Covers(weighted, test.score) then 1 else 0,
                     if Covers(ordinary, test.score) then 1 else 0,
                     if weighted.Infinite? then 1 else 0);
  }

  /** The fractions reported from the counters, and the square of the Monte Carlo standard error. */
  datatype Report = Report(weightedCoverage: real, ordinaryCoverage: real, squaredError: real, infiniteFraction: real)

  function ReportOf(hits: Counters, repetitions: nat): Report
    requires repetitions > 0
  {
    var n := repetitions as real;
    var weighted := hits.weightedHits as real / n;
    Report(weighted, hits.ordinaryHits as real / n, weighted * (1.0 - weighted) / n, hits.infinite as real / n)
  }

  /** The repetition loop with its three counters; the draws replace the random generator. */
  method Simulate(rs: seq<Repetition>, calibrationSize: int, source: real, target: real, alpha: real)
    returns (result: Result<Report>)
    requires calibrationSize >= 1 ==> forall r <- rs :: |r.calibration| == calibrationSize
    ensures result.Ok? <==> |rs| >= 1 && calibrationSize >= 1 && Probabilities(source, target, alpha)
    ensures result.Ok? ==> result.value == ReportOf(Contributions(rs, source, target, alpha), |rs|)
  {
    if |rs| < 1 || calibrationSize < 1
       || !Probabilities(source, target, alpha) {
      return ValueError;
    }
    hide ReportOf;
    var weightedHits: nat, ordinaryHits: nat, infinite: nat := 0, 0, 0;
    for i := 0 to |rs|
      invariant Counters(weightedHits, ordinaryHits, infinite) == Contributions(rs[..i], source, target, alpha)
    {
      var hits := Repeat(rs[i], source, target, alpha);
      weightedHits := weightedHits + hits.weightedHits;
      ordinaryHits := ordinaryHits + hits.ordinaryHits;
      infinite := infinite + hits.infinite;
      assert rs[..i + 1][..i] == rs[..i];
    }
    assert rs[..|rs|] == rs;
    return Ok(ReportOf(Counters(weightedHits, ordinaryHits, infinite), |rs|));
  }

  // ---------------------------------------------------------------------------------------------
  // What the counters mean
  // ---------------------------------------------------------------------------------------------

  /** The radii of each repetition: the weighted quantile and the order statistic of its calibration. */
  ghost predicate RadiiOf(
      rs: seq<Repetition>, source: real, target: real, alpha: real, weighted: seq<Radius>, ordinary: seq<Radius>)
    requires Probabilities(source, target, alpha)
  {
    && |weighted| == |ordinary| == |rs|
    && forall i :: 0 <= i < |rs| ==> RadiiAt(rs[i], source, target, alpha, weighted[i], ordinary[i])
  }

  ghost predicate RadiiAt(
      r: Repetition, source: real, target: real, alpha: real, weighted: Radius, ordinary: Radius)
    requires Probabilities(source, target, alpha)
  {
    var ps, test := Calibration(r, source, target), Weighted(r.test, source, target);
    && IsQuantile(ps, Target(ps, test.weight, alpha), weighted)
    && IsOrderStatistic(ps, Rank(|ps|, alpha), ordinary)
  }

  lemma ContributionIs(
      r: Repetition, source: real, target: real, alpha: real, weighted: Radius, ordinary: Radius)
    requires Probabilities(source, target, alpha) && RadiiAt(r, source, target, alpha, weighted, ordinary)
    ensures var hits := Contribution(r, source, target, alpha);
      && hits.weightedHits == (if Covers(weighted, r.test.score) then 1 else 0)
      && hits.ordinaryHits == (if Covers(ordinary, r.test.score) then 1 else 0)
      && hits.infinite == (if weighted.Infinite? then 1 else 0)
  {
    hide Share, Count, Mass, Rank, DensityRatio, IsQuantile, IsOrderStatistic, TestMassDominates, Target;
    var ps, test := Calibration(r, source, target), Weighted(r.test, source, target);
    CoverageCriterion(ps, Target(ps, test.weight, alpha), weighted, test.score);
    OrdinaryCriterion(ps, Rank(|ps|, alpha), ordinary, test.score);
    InfiniteExactly(ps, test.weight, alpha, weighted);
  }

  /** The repetitions whose test point lies within its radius. */
  function Covering(rs: seq<Repetition>, radii: seq<Radius>): set<nat>
    requires |radii| == |rs|
  {
    set i | 0 <= i < |rs| && Covers(radii[i], rs[i].test.score)
  }

  function InfiniteOnes(radii: seq<Radius>): set<nat> {
    set i | 0 <= i < |radii| && radii[i] == Infinite
  }

  lemma CoveringLast(rs: seq<Repetition>, radii: seq<Radius>)
    requires |radii| == |rs| > 0
    ensures var n := |rs| - 1;
      |Covering(rs, radii)|
      == |Covering(rs[..n], radii[..n])| + if Covers(radii[n], rs[n].test.score) then 1 else 0
  {
    hide Covers;
    var n := |rs| - 1;
    var last: set<nat> := if Covers(radii[n], rs[n].test.score) then {n} else {};
    assert Covering(rs, radii) == Covering(rs[..n], radii[..n]) + last;
    assert Covering(rs[..n], radii[..n]) !! last;
  }

  lemma InfiniteLast(radii: seq<Radius>)
    requires radii != []
    ensures var n := |radii| - 1;
      |InfiniteOnes(radii)| == |InfiniteOnes(radii[..n])| + if radii[n] == Infinite then 1 else 0
  {
    var n := |radii| - 1;
    var last: set<nat> := if radii[n] == Infinite then {n} else {};
    assert InfiniteOnes(radii) == InfiniteOnes(radii[..n]) + last;
    assert InfiniteOnes(radii[..n]) !! last;
  }

  lemma {:induction false} CountersCount(
      rs: seq<Repetition>, source: real, target: real, alpha: real, weighted: seq<Radius>, ordinary: seq<Radius>)
    requires Probabilities(source, target, alpha) && RadiiOf(rs, source, target, alpha, weighted, ordinary)
    ensures var hits := Contributions(rs, source, target, alpha);
      && hits.weightedHits == |Covering(rs, weighted)|
      && hits.ordinaryHits == |Covering(rs, ordinary)|
      && hits.infinite == |InfiniteOnes(weighted)|
  {
    if rs != [] {
      var n := |rs| - 1;
      hide RadiiAt, Contribution, Covering, InfiniteOnes;
      CountersCount(rs[..n], source, target, alpha, weighted[..n], ordinary[..n]);
      ContributionIs(rs[n], source, target, alpha, weighted[n], ordinary[n]);
      CoveringLast(rs, weighted);
      CoveringLast(rs, ordinary);
      InfiniteLast(weighted);
    } else {
      assert Covering(rs, weighted) == {} && Covering(rs, ordinary) == {} && InfiniteOnes(weighted) == {};
    }
  }

  lemma FractionTimes(x: real, n: nat)
    requires n > 0
    ensures x / n as real * n as real == x
  {
  }

  lemma ReportTimes(hits: Counters, n: nat)
    requires n > 0
    ensures var report := ReportOf(hits, n);
      && report.weightedCoverage * n as real == hits.weightedHits as real
      && report.ordinaryCoverage * n as real == hits.ordinaryHits as real
      && report.infiniteFraction * n as real == hits.infinite as real
      && report.squaredError * n as real == report.weightedCoverage * (1.0 - report.weightedCoverage)
  {
    var w := hits.weightedHits as real / n as real;
    var spread := w * (1.0 - w);
    FractionTimes(hits.weightedHits as real, n);
    FractionTimes(hits.ordinaryHits as real, n);
    FractionTimes(hits.infinite as real, n);
    FractionTimes(spread, n);
  }

  /**
    Each reported fraction is the share of the repetitions concerned, counted by any radii that meet the
    contracts of quantile and order statistic; the squared error is w (1 - w) / n for the reported w.
  */
  lemma ReportExactly(
      rs: seq<Repetition>, source: real, target: real, alpha: real, weighted: seq<Radius>, ordinary: seq<Radius>)
    requires rs != [] && Probabilities(source, target, alpha)
    requires RadiiOf(rs, source, target, alpha, weighted, ordinary)
    ensures var report, n := ReportOf(Contributions(rs, source, target, alpha), |rs|), |rs| as real;
      && report.weightedCoverage * n == |Covering(rs, weighted)| as real
      && report.ordinaryCoverage * n == |Covering(rs, ordinary)| as real
      && report.infiniteFraction * n == |InfiniteOnes(weighted)| as real
      && report.squaredError * n == report.weightedCoverage * (1.0 - report.weightedCoverage)
  {
    hide Contributions, RadiiOf, Covering, InfiniteOnes, ReportOf;
    CountersCount(rs, source, target, alpha, weighted, ordinary);
    ReportTimes(Contributions(rs, source, target, alpha), |rs|);
  }

  lemma {:induction false} ContributionsBounded(rs: seq<Repetition>, source: real, target: real, alpha: real)
    requires 0.0 < source < 1.0 && 0.0 < target < 1.0
    ensures var hits := Contributions(rs, source, target, alpha);
      hits.weightedHits <= |rs| && hits.ordinaryHits <= |rs| && hits.infinite <= |rs|
  {
    hide Mass, Count, Target, Rank, TestMassDominates;
    if rs != [] { ContributionsBounded(rs[..|rs| - 1], source, target, alpha); }
  }

  lemma FractionInUnit(hits: nat, n: nat)
    requires n > 0 && hits <= n
    ensures 0.0 <= hits as real / n as real <= 1.0
  {
    QuotientBounded(hits as real, n as real, 0.0, 1.0);
  }

  lemma Spread(w: real)
    requires 0.0 <= w <= 1.0
    ensures 0.0 <= w * (1.0 - w) <= 0.25
  {
    var gap := w - 0.5;
    assert w * (1.0 - w) == 0.25 - gap * gap;
    if gap < 0.0 { PositivePart(-gap); } else { PositivePart(gap); }
    assert gap * gap == (-gap) * (-gap);
    PartBounds(1.0 - w, w, w * (1.0 - w));
  }

  lemma PositivePart(x: real)
    requires x >= 0.0
    ensures x * x >= 0.0
  {
  }

  /** All reported fractions are probabilities, and the squared error is one a square root can be taken of. */
  lemma ReportSound(rs: seq<Repetition>, source: real, target: real, alpha: real)
    requires rs != [] && Probabilities(source, target, alpha)
    ensures var report := ReportOf(Contributions(rs, source, target, alpha), |rs|);
      && 0.0 <= report.weightedCoverage <= 1.0 && 0.0 <= report.ordinaryCoverage <= 1.0
      && 0.0 <= report.infiniteFraction <= 1.0
      && 0.0 <= report.squaredError <= 0.25 / |rs| as real
  {
    hide Contributions;
    var hits, n := Contributions(rs, source, target, alpha), |rs|;
    ContributionsBounded(rs, source, target, alpha);
    FractionInUnit(hits.weightedHits, n);
    FractionInUnit(hits.ordinaryHits, n);
    FractionInUnit(hits.infinite, n);
    var w := hits.weightedHits as real / n as real;
    Spread(w);
    SmallerQuotient(w * (1.0 - w), n as real);
  }

  lemma SmallerQuotient(x: real, n: real)
    requires n > 0.0 && 0.0 <= x <= 0.25
    ensures 0.0 <= x / n <= 0.25 / n
  {
    var q, r := x / n, 0.25 / n;
    assert q * n == x && r * n == 0.25;
    ScaleOrder(q, 0.0, n);
    ScaleOrder(r, q, n);
  }

  /** Without covariate shift the two constructions hit the same test points, on any draws. */
  lemma {:induction false} NoShiftSameHits(rs: seq<Repetition>, p: real, alpha: real)
    requires Probabilities(p, p, alpha)
    ensures Contributions(rs, p, p, alpha).weightedHits == Contributions(rs, p, p, alpha).ordinaryHits
  {
    if rs != [] {
      NoShiftSameHits(rs[..|rs| - 1], p, alpha);
      NoShiftSameHit(rs[|rs| - 1], p, alpha);
    }
  }

  lemma RatioOne(p: real)
    requires p > 0.0
    ensures p / p == 1.0
  {
  }

  lemma NoShiftSameHit(r: Repetition, p: real, alpha: real)
    requires Probabilities(p, p, alpha)
    ensures Contribution(r, p, p, alpha).weightedHits == Contribution(r, p, p, alpha).ordinaryHits
  {
    var ps := Calibration(r, p, p);
    RatioOne(p);
    RatioOne(1.0 - p);
    assert forall q <- ps :: q.weight == 1.0;
    hide Share, Rank, Mass, Count, DensityRatio;
    MassIsCount(ps, 1.0, All);
    CountAll(ps);
    var below := Below(r.test.score);
    MassIsCount(ps, 1.0, below);
    EqualWeightsOrder(1.0, alpha, |ps|, Count(ps, below));
  }

  /** Every observation in turn is the test point and the others calibrate. */
  function LeaveOneOutDraws(os: seq<Observation>): seq<Repetition> {
    seq(|os|, i requires 0 <= i < |os| => Repetition(os[..i] + os[i + 1..], os[i]))
  }

  lemma {:induction false} CountByScores(ps: seq<Point>, qs: seq<Point>, cut: Cut)
    requires |ps| == |qs| && forall i :: 0 <= i < |ps| ==> ps[i].score == qs[i].score
    ensures Count(ps, cut) == Count(qs, cut)
  {
    if ps != [] {
      assert forall i :: 0 <= i < |ps[1..]| ==> ps[1..][i] == ps[i + 1] && qs[1..][i] == qs[i + 1];
      CountByScores(ps[1..], qs[1..], cut);
    }
  }

  lemma {:induction false} CoveredWeightSnoc(ps: seq<Point>, radii: seq<Radius>, p: Point, r: Radius)
    requires |ps| == |radii|
    ensures CoveredWeight(ps + [p], radii + [r])
         == CoveredWeight(ps, radii) + (if Covers(r, p.score) then p.weight else 0.0)
  {
    if ps != [] {
      assert (ps + [p])[1..] == ps[1..] + [p] && (radii + [r])[1..] == radii[1..] + [r];
      CoveredWeightSnoc(ps[1..], radii[1..], p, r);
    }
  }

  /** The rank radius of each unit-weight point among the others. */
  function RankRadii(unit: seq<Point>, alpha: real): seq<Radius> {
    seq(|unit|, i requires 0 <= i < |unit| =>
      var others := Others(unit, i);
      var rank := Rank(|others|, alpha);
      if 0 < rank <= |others| then Finite(Sort(others)[rank - 1].score) else Infinite)
  }

  lemma RankRadiiLeaveOneOut(unit: seq<Point>, alpha: real)
    requires 0.0 < alpha < 1.0 && forall p <- unit :: p.weight == 1.0
    ensures LeaveOneOut(unit, alpha, RankRadii(unit, alpha))
    ensures forall i :: 0 <= i < |unit| ==>
      IsOrderStatistic(Others(unit, i), Rank(|Others(unit, i)|, alpha), RankRadii(unit, alpha)[i])
  {
    forall i | 0 <= i < |unit|
      ensures IsOrderStatistic(Others(unit, i), Rank(|Others(unit, i)|, alpha), RankRadii(unit, alpha)[i])
      ensures IsQuantile(Others(unit, i), Target(Others(unit, i), unit[i].weight, alpha), RankRadii(unit, alpha)[i])
    {
      var others := Others(unit, i);
      ShareBounds(alpha, (|others| + 1) as real);
      hide Share, Mass, Count, Sort;
      assert Rank(|others|, alpha) > 0;
      RankLocates(others, Rank(|others|, alpha));
      EqualWeightsReduce(others, 1.0, alpha, RankRadii(unit, alpha)[i]);
    }
  }

  function Scores(os: seq<Observation>): (unit: seq<Point>)
    ensures |unit| == |os|
  {
    seq(|os|, i requires 0 <= i < |os| => Point(os[i].score, 1.0))
  }

  lemma OrdinaryHitIsCovered(os: seq<Observation>, i: nat, source: real, target: real, alpha: real)
    requires Probabilities(source, target, alpha) && i < |os|
    ensures Contribution(LeaveOneOutDraws(os)[i], source, target, alpha).ordinaryHits
         == if Covers(RankRadii(Scores(os), alpha)[i], os[i].score) then 1 else 0
  {
    var r, unit, radii := LeaveOneOutDraws(os)[i], Scores(os), RankRadii(Scores(os), alpha);
    RankRadiiLeaveOneOut(unit, alpha);
    hide Share, Mass, Rank, RankRadii, Count, DensityRatio, TestMassDominates;
    var others := Others(unit, i);
    OrdinaryCriterion(others, Rank(|others|, alpha), radii[i], os[i].score);
    CountByScores(Calibration(r, source, target), others, Below(os[i].score));
  }

  lemma ContributionsLast(rs: seq<Repetition>, source: real, target: real, alpha: real)
    requires rs != [] && 0.0 < source < 1.0 && 0.0 < target < 1.0
    ensures Contributions(rs, source, target, alpha).ordinaryHits
         == Contributions(rs[..|rs| - 1], source, target, alpha).ordinaryHits
          + Contribution(rs[|rs| - 1], source, target, alpha).ordinaryHits
  {
    hide Contribution;
  }

  /** Repetitions that hit exactly the covered points count their weight, when every weight is one. */
  lemma {:induction false} OrdinaryHitsAreCovered(
      rs: seq<Repetition>, ps: seq<Point>, radii: seq<Radius>, source: real, target: real, alpha: real)
    requires Probabilities(source, target, alpha) && |rs| == |ps| == |radii|
    requires forall i :: 0 <= i < |ps| ==> ps[i].weight == 1.0
    requires forall i :: 0 <= i < |ps| ==>
      Contribution(rs[i], source, target, alpha).ordinaryHits == if Covers(radii[i], ps[i].score) then 1 else 0
    ensures Contributions(rs, source, target, alpha).ordinaryHits as real == CoveredWeight(ps, radii)
  {
    if rs != [] {
      var n := |rs| - 1;
      OrdinaryHitsAreCovered(rs[..n], ps[..n], radii[..n], source, target, alpha);
      ContributionsLast(rs, source, target, alpha);
      hide Contribution, CoveredWeight, Contributions;
      assert ps == ps[..n] + [ps[n]] && radii == radii[..n] + [radii[n]];
      CoveredWeightSnoc(ps[..n], radii[..n], ps[n], radii[n]);
    }
  }

  /** On leave-one-out draws the loop reports ordinary coverage of at least 1 - alpha, whatever the scores. */
  lemma OrdinaryCoverage(os: seq<Observation>, source: real, target: real, alpha: real)
    requires Probabilities(source, target, alpha)
    ensures Contributions(LeaveOneOutDraws(os), source, target, alpha).ordinaryHits as real
         >= Share(alpha, |os| as real)
  {
    var unit := Scores(os);
    var radii := RankRadii(unit, alpha);
    assert |radii| == |unit|;
    hide Share, Contribution, Contributions, CoveredWeight, RankRadii, Mass, Count;
    RankRadiiLeaveOneOut(unit, alpha);
    CoverageTheorem(unit, alpha, radii);
    MassIsCount(unit, 1.0, All);
    CountAll(unit);
    MultipleOne(|unit|);
    forall i | 0 <= i < |os|
      ensures Contribution(LeaveOneOutDraws(os)[i], source, target, alpha).ordinaryHits
           == if Covers(radii[i], unit[i].score) then 1 else 0
    {
      OrdinaryHitIsCovered(os, i, source, target, alpha);
    }
    OrdinaryHitsAreCovered(LeaveOneOutDraws(os), unit, radii, source, target, alpha);
  }

  lemma AtLeastShare(hits: real, alpha: real, n: real)
    requires n > 0.0 && hits >= Share(alpha, n)
    ensures hits / n >= 1.0 - alpha
  {
    var q := hits / n;
    assert q * n == hits;
    ScaleOrder(q, 1.0 - alpha, n);
  }

  /** On leave-one-out draws the reported ordinary coverage is at least 1 - alpha. */
  lemma OrdinaryCoverageReported(os: seq<Observation>, source: real, target: real, alpha: real)
    requires os != [] && Probabilities(source, target, alpha)
    ensures ReportOf(Contributions(LeaveOneOutDraws(os), source, target, alpha), |os|).ordinaryCoverage >= 1.0 - alpha
  {
    hide Contributions, LeaveOneOutDraws, Share;
    OrdinaryCoverage(os, source, target, alpha);
    AtLeastShare(
      Contributions(LeaveOneOutDraws(os), source, target, alpha).ordinaryHits as real, alpha, |os| as real);
  }
}
