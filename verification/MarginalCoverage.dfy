/**
  Marginal coverage under covariate shift: the mean of what one repetition of
  examples/conformal_reproduction/run.py adds to its weighted counter, when the calibration is drawn from
  any finite source law and the test point from the target law the density ratio belongs to.
*/
module MarginalCoverage {
  import opened Reals
  import opened Conformal
  import opened ConformalSimulation
  import opened WeightedCoverage
  import E = Expectation

  type Law = seq<E.Atom<Observation>>

  function Indicator(o: Observation): real {
    if o.positive then 1.0 else 0.0
  }

  /** Probabilities of a source whose covariate is positive as often as the shift says. Scores are arbitrary. */
  ghost predicate IsSource(z: Shift, law: Law) {
    E.Nonnegative(law) && E.Total(law, E.One) == 1.0 && E.Total(law, Indicator) == z.source
  }

  function RatioAt(z: Shift, o: Observation): real {
    if Valid(z) then Ratio(z, o) else 0.0
  }

  function RatioOf(z: Shift): Observation -> real {
    (o: Observation) => RatioAt(z, o)
  }

  /** What a test point adds, weighted by its density ratio. */
  function WeighedHit(z: Shift, calibration: seq<Observation>, o: Observation): real {
    if Valid(z) then Weigh(Ratio(z, o), Hit(z, calibration, o)) else 0.0
  }

  function HitOf(z: Shift, calibration: seq<Observation>): Observation -> real {
    (o: Observation) => WeighedHit(z, calibration, o)
  }

  /** The probability of a hit given the calibration: each atom's target probability is its ratio times its own. */
  function HitGiven(z: Shift, law: Law): seq<Observation> -> real {
    (calibration: seq<Observation>) => E.Total(law, HitOf(z, calibration))
  }

  /** The probability of a hit over `n` source draws and a test point from the target law. */
  ghost function HitProbability(z: Shift, law: Law, n: nat): real {
    E.Expect(law, n, HitGiven(z, law))
  }

  // ---------------------------------------------------------------------------------------------
  // The target law
  // ---------------------------------------------------------------------------------------------

  /** The sum of the ratios, from the probability of a positive covariate and that of a negative one. */
  function RatioFrom(z: Shift, positive: real, negative: real): real
    requires Valid(z)
  {
    z.target / z.source * positive + (1.0 - z.target) / (1.0 - z.source) * negative
  }

  lemma RatioStep(z: Shift, p: real, o: Observation, positive: real, negative: real)
    requires Valid(z)
    ensures var q := Times(p, Indicator(o));
      Times(p, RatioAt(z, o)) + RatioFrom(z, positive, negative) == RatioFrom(z, q + positive, p - q + negative)
  {
    var up, down := z.target / z.source, (1.0 - z.target) / (1.0 - z.source);
    assert RatioAt(z, o) == if o.positive then up else down;
    if o.positive {
      assert up * (p + positive) == up * p + up * positive;
    } else {
      assert down * (p + negative) == down * p + down * negative;
    }
  }

  lemma {:induction false} RatioTotal(z: Shift, atoms: Law)
    requires Valid(z)
    ensures var positive := E.Total(atoms, Indicator);
      E.Total(atoms, RatioOf(z)) == RatioFrom(z, positive, E.Total(atoms, E.One) - positive)
  {
    if atoms != [] {
      var p, o, positive := atoms[0].p, atoms[0].value, E.Total(atoms[1..], Indicator);
      RatioTotal(z, atoms[1..]);
      RatioStep(z, p, o, positive, E.Total(atoms[1..], E.One) - positive);
      assert Times(p, 1.0) == p;
      hide RatioFrom, RatioAt, Times, Indicator;
    }
  }

  lemma CancelBoth(z: Shift)
    requires Valid(z)
    ensures RatioFrom(z, z.source, 1.0 - z.source) == 1.0
  {
    RatioReweights(z.source, z.target, 1.0, 1.0);
    assert Expected(z.target, 1.0, 1.0) == 1.0;
  }

  /** The target probabilities add up to one. */
  lemma TargetTotal(z: Shift, law: Law)
    requires Valid(z) && IsSource(z, law)
    ensures E.Total(law, RatioOf(z)) == 1.0
  {
    hide RatioFrom, E.Total;
    RatioTotal(z, law);
    CancelBoth(z);
  }

  // ---------------------------------------------------------------------------------------------
  // One place of a longer list of draws
  // ---------------------------------------------------------------------------------------------

  /** The hit of the draw at place `m`, with all other draws as calibration. */
  function HitPart(z: Shift, m: nat): seq<Observation> -> real {
    (t: seq<Observation>) => if m < |t| then WeighedHit(z, Without(t, m), t[m]) else 0.0
  }

  function RatioPart(z: Shift, m: nat): seq<Observation> -> real {
    (t: seq<Observation>) => if m < |t| then RatioAt(z, t[m]) else 0.0
  }

  lemma InsertedPlace(t: seq<Observation>, m: nat, o: Observation)
    requires m <= |t|
    ensures var u := E.Insert(t, m, o); m < |u| && u[m] == o && Without(u, m) == t
  {
  }

  lemma {:induction false} AverageHit(z: Shift, atoms: Law, m: nat, t: seq<Observation>)
    requires m <= |t|
    ensures E.AverageAt(atoms, m, HitPart(z, m), t) == E.Total(atoms, HitOf(z, t))
    decreases |atoms|
  {
    if atoms != [] {
      AverageHit(z, atoms[1..], m, t);
      InsertedPlace(t, m, atoms[0].value);
      hide WeighedHit, Times, E.Insert, Without;
    }
  }

  lemma {:induction false} AverageRatio(z: Shift, atoms: Law, m: nat, t: seq<Observation>)
    requires m <= |t|
    ensures E.AverageAt(atoms, m, RatioPart(z, m), t) == E.Total(atoms, RatioOf(z))
    decreases |atoms|
  {
    if atoms != [] {
      AverageRatio(z, atoms[1..], m, t);
      InsertedPlace(t, m, atoms[0].value);
      hide RatioAt, Times, E.Insert;
    }
  }

  /** Every place is hit as often as a test point drawn last. */
  lemma HitPartMean(z: Shift, law: Law, n: nat, m: nat)
    requires m <= n
    ensures E.Expect(law, n + 1, HitPart(z, m)) == HitProbability(z, law, n)
  {
    var averaged := E.Averaged(law, m, HitPart(z, m));
    E.DrawLast(law, n, m, HitPart(z, m));
    forall t: seq<Observation> | |t| == n ensures averaged(t) == HitGiven(z, law)(t) { AverageHit(z, law, m, t); }
    E.ExpectSame(law, n, averaged, HitGiven(z, law));
  }

  lemma RatioPartMean(z: Shift, law: Law, n: nat, m: nat)
    requires Valid(z) && IsSource(z, law) && m <= n
    ensures E.Expect(law, n + 1, RatioPart(z, m)) == 1.0
  {
    var averaged := E.Averaged(law, m, RatioPart(z, m));
    E.DrawLast(law, n, m, RatioPart(z, m));
    TargetTotal(z, law);
    forall t: seq<Observation> | |t| == n ensures averaged(t) == E.Constant<Observation>(1.0)(t) {
      AverageRatio(z, law, m, t);
    }
    E.ExpectSame(law, n, averaged, E.Constant(1.0));
    E.ExpectConstant(law, n, 1.0);
  }

  // ---------------------------------------------------------------------------------------------
  // All places together
  // ---------------------------------------------------------------------------------------------

  function HitSums(z: Shift, k: nat): seq<Observation> -> real {
    (t: seq<Observation>) => if Valid(z) && k <= |t| then HitSum(z, t, k) else 0.0
  }

  function RatioSums(z: Shift, k: nat): seq<Observation> -> real {
    (t: seq<Observation>) => if Valid(z) && k <= |t| then RatioSum(z, t, k) else 0.0
  }

  lemma TimesOne(x: real)
    ensures Times(1.0, x) == x
  {
  }

  lemma HitSumsNext(z: Shift, k: nat, n: nat)
    requires Valid(z) && 0 < k <= n
    ensures E.Same(HitSums(z, k), E.Plus(1.0, HitPart(z, k - 1), HitSums(z, k - 1)), n)
  {
    forall t: seq<Observation> | |t| == n
      ensures HitSums(z, k)(t) == E.Plus(1.0, HitPart(z, k - 1), HitSums(z, k - 1))(t)
    {
      TimesOne(HitPart(z, k - 1)(t));
      hide Times, Hit, Ratio, Weigh, Without;
    }
  }

  lemma RatioSumsNext(z: Shift, k: nat, n: nat)
    requires Valid(z) && 0 < k <= n
    ensures E.Same(RatioSums(z, k), E.Plus(1.0, RatioPart(z, k - 1), RatioSums(z, k - 1)), n)
  {
    forall t: seq<Observation> | |t| == n
      ensures RatioSums(z, k)(t) == E.Plus(1.0, RatioPart(z, k - 1), RatioSums(z, k - 1))(t)
    {
      TimesOne(RatioPart(z, k - 1)(t));
      hide Times, Ratio;
    }
  }

  lemma OneMoreTime(k: nat, x: real)
    requires k > 0
    ensures Times(1.0, x) + Times((k - 1) as real, x) == Times(k as real, x)
  {
  }

  lemma NoHits(z: Shift, law: Law, n: nat, x: real)
    requires Valid(z)
    ensures E.Expect(law, n, HitSums(z, 0)) == Times(0.0, x)
  {
    E.ExpectSame(law, n, HitSums(z, 0), E.Constant(0.0));
    E.ExpectZero(law, n);
    assert Times(0.0, x) == 0.0;
  }

  lemma {:induction false} HitSumsMean(z: Shift, law: Law, n: nat, k: nat)
    requires Valid(z) && k <= n + 1
    ensures E.Expect(law, n + 1, HitSums(z, k)) == Times(k as real, HitProbability(z, law, n))
  {
    hide HitProbability, E.Expect, Times, HitSums, HitPart, E.Plus, E.Same;
    if k == 0 {
      NoHits(z, law, n + 1, HitProbability(z, law, n));
    } else {
      HitSumsMean(z, law, n, k - 1);
      HitSumsNext(z, k, n + 1);
      E.ExpectSame(law, n + 1, HitSums(z, k), E.Plus(1.0, HitPart(z, k - 1), HitSums(z, k - 1)));
      E.ExpectPlus(law, n + 1, 1.0, HitPart(z, k - 1), HitSums(z, k - 1));
      HitPartMean(z, law, n, k - 1);
      OneMoreTime(k, HitProbability(z, law, n));
    }
  }

  lemma NoRatios(z: Shift, law: Law, n: nat)
    requires Valid(z)
    ensures E.Expect(law, n, RatioSums(z, 0)) == 0.0
  {
    E.ExpectSame(law, n, RatioSums(z, 0), E.Constant(0.0));
    E.ExpectZero(law, n);
  }

  lemma {:induction false} RatioSumsMean(z: Shift, law: Law, n: nat, k: nat)
    requires Valid(z) && IsSource(z, law) && k <= n + 1
    ensures E.Expect(law, n + 1, RatioSums(z, k)) == k as real
  {
    hide E.Expect, Times, IsSource, RatioSums, RatioPart, E.Plus, E.Same;
    if k == 0 {
      NoRatios(z, law, n + 1);
    } else {
      RatioSumsMean(z, law, n, k - 1);
      RatioSumsNext(z, k, n + 1);
      E.ExpectSame(law, n + 1, RatioSums(z, k), E.Plus(1.0, RatioPart(z, k - 1), RatioSums(z, k - 1)));
      E.ExpectPlus(law, n + 1, 1.0, RatioPart(z, k - 1), RatioSums(z, k - 1));
      RatioPartMean(z, law, n, k - 1);
      TimesOne(1.0);
    }
  }

  lemma ShareIsProduct(alpha: real, x: real)
    ensures Share(alpha, x) == Times(1.0 - alpha, x)
  {
  }

  lemma CoveredShare(z: Shift, n: nat)
    requires Valid(z)
    ensures E.Below(E.Plus(1.0 - z.alpha, RatioSums(z, n), E.Constant(0.0)), HitSums(z, n), n)
  {
    forall t: seq<Observation> | |t| == n
      ensures E.Plus(1.0 - z.alpha, RatioSums(z, n), E.Constant(0.0))(t) <= HitSums(z, n)(t)
    {
      hide HitSum, RatioSum, Share, Times;
      LeaveOneOutHits(z, t);
      ShareIsProduct(z.alpha, RatioSum(z, t, n));
    }
  }

  lemma AtLeast(level: real, count: real, x: real)
    requires count > 0.0 && Times(level, count) <= Times(count, x)
    ensures level <= x
  {
    ScaleOrder(x, level, count);
    assert x * count == count * x;
  }

  /**
    Marginal coverage: for every finite source law, every number of calibration draws and every shift, a test
    point from the target law is within the weighted radius with probability at least 1 - alpha.
  */
  lemma MarginalCoverageTheorem(z: Shift, law: Law, n: nat)
    requires Valid(z) && IsSource(z, law)
    ensures HitProbability(z, law, n) >= 1.0 - z.alpha
  {
    var level, count := 1.0 - z.alpha, n + 1;
    hide HitProbability, E.Expect, Times, HitSums, RatioSums, E.Plus, E.Constant, E.Below, E.Total;
    CoveredShare(z, count);
    E.ExpectMonotone(law, count, E.Plus(level, RatioSums(z, count), E.Constant(0.0)), HitSums(z, count));
    E.ExpectPlus(law, count, level, RatioSums(z, count), E.Constant(0.0));
    E.ExpectZero(law, count);
    RatioSumsMean(z, law, n, count);
    HitSumsMean(z, law, n, count);
    AtLeast(level, count as real, HitProbability(z, law, n));
  }
}
