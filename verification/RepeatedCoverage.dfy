/**
  The weighted coverage that examples/conformal_reproduction/run.py reports: its mean over independent repetitions,
  each with a calibration from the source law and a test point from the target law.
*/
module RepeatedCoverage {
  import opened Reals
  import opened Conformal
  import opened ConformalSimulation
  import opened WeightedCoverage
  import opened MarginalCoverage
  import E = Expectation

  // ---------------------------------------------------------------------------------------------
  // The law of one repetition
  // ---------------------------------------------------------------------------------------------

  /** A test point from the target law, behind this calibration. */
  function TestedOver(z: Shift, atoms: Law, c: E.Atom<seq<Observation>>): seq<E.Atom<Repetition>> {
    if atoms == [] then []
    else
      [E.Atom(Repetition(c.value, atoms[0].value), Times(c.p, Times(atoms[0].p, RatioAt(z, atoms[0].value))))]
      + TestedOver(z, atoms[1..], c)
  }

  function Tested(z: Shift, law: Law, calibrations: seq<E.Atom<seq<Observation>>>): seq<E.Atom<Repetition>> {
    if calibrations == [] then [] else TestedOver(z, law, calibrations[0]) + Tested(z, law, calibrations[1..])
  }

  /** Every repetition with its probability: `n` source draws calibrate and a target draw is the test point. */
  function Repetitions(z: Shift, law: Law, n: nat): seq<E.Atom<Repetition>> {
    Tested(z, law, E.Tuples(law, n))
  }

  /** What is averaged over the test point, when the calibration is given. */
  function At(z: Shift, g: Repetition -> real, calibration: seq<Observation>): Observation -> real {
    (o: Observation) => Times(RatioAt(z, o), g(Repetition(calibration, o)))
  }

  function Given(z: Shift, law: Law, g: Repetition -> real): seq<Observation> -> real {
    (calibration: seq<Observation>) => E.Total(law, At(z, g, calibration))
  }

  lemma TimesAssociates(c: real, p: real, ratio: real, x: real, rest: real)
    ensures Times(Times(c, Times(p, ratio)), x) + Times(c, rest) == Times(c, Times(p, Times(ratio, x)) + rest)
  {
    assert c * (p * ratio) * x == c * (p * (ratio * x));
    assert c * (p * (ratio * x)) + c * rest == c * (p * (ratio * x) + rest);
  }

  lemma {:induction false} TestedOverTotal(z: Shift, atoms: Law, c: E.Atom<seq<Observation>>, g: Repetition -> real)
    ensures E.Total(TestedOver(z, atoms, c), g) == Times(c.p, E.Total(atoms, At(z, g, c.value)))
  {
    if atoms == [] {
      assert Times(c.p, 0.0) == 0.0;
    } else {
      var o := atoms[0].value;
      TestedOverTotal(z, atoms[1..], c, g);
      TimesAssociates(c.p, atoms[0].p, RatioAt(z, o), g(Repetition(c.value, o)), E.Total(atoms[1..], At(z, g, c.value)));
      hide Times, RatioAt;
    }
  }

  lemma {:induction false} TestedTotal(
      z: Shift, law: Law, calibrations: seq<E.Atom<seq<Observation>>>, g: Repetition -> real)
    ensures E.Total(Tested(z, law, calibrations), g) == E.Total(calibrations, Given(z, law, g))
  {
    if calibrations != [] {
      TestedTotal(z, law, calibrations[1..], g);
      TestedOverTotal(z, law, calibrations[0], g);
      E.TotalConcat(TestedOver(z, law, calibrations[0]), Tested(z, law, calibrations[1..]), g);
      hide Times, TestedOver;
    }
  }

  /** A mean over repetitions is one over calibrations of one over test points. */
  lemma RepetitionsTotal(z: Shift, law: Law, n: nat, g: Repetition -> real)
    ensures E.Total(Repetitions(z, law, n), g) == E.Expect(law, n, Given(z, law, g))
  {
    TestedTotal(z, law, E.Tuples(law, n), g);
    E.TuplesTotal(law, n, Given(z, law, g));
  }

  lemma {:induction false} TotalSame<T(!new)>(atoms: seq<E.Atom<T>>, f: T -> real, g: T -> real)
    requires forall x :: f(x) == g(x)
    ensures E.Total(atoms, f) == E.Total(atoms, g)
  {
    if atoms != [] { TotalSame(atoms[1..], f, g); }
  }

  lemma OnePart(z: Shift, t: seq<Observation>, o: Observation)
    ensures At(z, E.One, t)(o) == RatioOf(z)(o)
  {
    hide RatioAt;
    assert At(z, E.One, t)(o) == Times(RatioAt(z, o), 1.0);
  }

  lemma OneGiven(z: Shift, law: Law, t: seq<Observation>)
    requires Valid(z) && IsSource(z, law)
    ensures Given(z, law, E.One)(t) == 1.0
  {
    hide IsSource;
    forall o ensures At(z, E.One, t)(o) == RatioOf(z)(o) { OnePart(z, t, o); }
    hide At, RatioOf;
    TotalSame(law, At(z, E.One, t), RatioOf(z));
    TargetTotal(z, law);
  }

  lemma {:induction false} TestedOverNonnegative(z: Shift, atoms: Law, c: E.Atom<seq<Observation>>)
    requires E.Nonnegative(atoms) && c.p >= 0.0
    ensures E.Nonnegative(TestedOver(z, atoms, c))
  {
    if atoms != [] {
      TestedOverNonnegative(z, atoms[1..], c);
      RatioNonnegative(z, atoms[0].value);
      E.TimesNonnegative(atoms[0].p, RatioAt(z, atoms[0].value));
      E.TimesNonnegative(c.p, Times(atoms[0].p, RatioAt(z, atoms[0].value)));
      hide Times, RatioAt;
    }
  }

  lemma RatioNonnegative(z: Shift, o: Observation)
    ensures RatioAt(z, o) >= 0.0
  {
  }

  lemma {:induction false} TestedNonnegative(z: Shift, law: Law, calibrations: seq<E.Atom<seq<Observation>>>)
    requires E.Nonnegative(law) && E.Nonnegative(calibrations)
    ensures E.Nonnegative(Tested(z, law, calibrations))
  {
    if calibrations != [] {
      TestedNonnegative(z, law, calibrations[1..]);
      TestedOverNonnegative(z, law, calibrations[0]);
      hide TestedOver;
    }
  }

  /** The repetitions have probabilities, which add up to one. */
  lemma RepetitionsLaw(z: Shift, law: Law, n: nat)
    requires Valid(z) && IsSource(z, law)
    ensures E.Nonnegative(Repetitions(z, law, n))
    ensures E.Total(Repetitions(z, law, n), E.One) == 1.0
  {
    E.TuplesNonnegative(law, n);
    TestedNonnegative(z, law, E.Tuples(law, n));
    hide Repetitions, E.Total, Given, E.Expect;
    RepetitionsTotal(z, law, n, E.One);
    forall t: seq<Observation> | |t| == n
      ensures Given(z, law, E.One)(t) == E.Constant<Observation>(1.0)(t)
    {
      OneGiven(z, law, t);
    }
    E.ExpectSame(law, n, Given(z, law, E.One), E.Constant(1.0));
    E.ExpectConstant(law, n, 1.0);
  }

  /** The weighted counter of one repetition. */
  function WeightedHits(z: Shift): Repetition -> real {
    (r: Repetition) => if Valid(z) then Contribution(r, z.source, z.target, z.alpha).weightedHits as real else 0.0
  }

  lemma HitPartIs(z: Shift, t: seq<Observation>, o: Observation)
    requires Valid(z)
    ensures At(z, WeightedHits(z), t)(o) == HitOf(z, t)(o)
  {
    hide Contribution, DensityRatio;
    var ratio, hit := Ratio(z, o), Hit(z, t, o);
    assert At(z, WeightedHits(z), t)(o) == Times(ratio, hit as real);
    assert HitOf(z, t)(o) == Weigh(ratio, hit);
  }

  lemma RepetitionsHit(z: Shift, law: Law, n: nat)
    requires Valid(z)
    ensures E.Total(Repetitions(z, law, n), WeightedHits(z)) == HitProbability(z, law, n)
  {
    var g := WeightedHits(z);
    RepetitionsTotal(z, law, n, g);
    forall t: seq<Observation> | |t| == n ensures Given(z, law, g)(t) == HitGiven(z, law)(t) {
      forall o ensures At(z, g, t)(o) == HitOf(z, t)(o) { HitPartIs(z, t, o); }
      hide At, HitOf, WeightedHits;
      TotalSame(law, At(z, g, t), HitOf(z, t));
    }
    E.ExpectSame(law, n, Given(z, law, g), HitGiven(z, law));
  }

  // ---------------------------------------------------------------------------------------------
  // Many repetitions
  // ---------------------------------------------------------------------------------------------

  /** The reported weighted coverage, by the counter's final value. */
  function ReportedCoverage(z: Shift): seq<Repetition> -> real {
    (rs: seq<Repetition>) =>
      if Valid(z) && rs != [] then ReportOf(Contributions(rs, z.source, z.target, z.alpha), |rs|).weightedCoverage
      else 0.0
  }

  function CounterOf(z: Shift): seq<Repetition> -> real {
    (rs: seq<Repetition>) =>
      if Valid(z) then Contributions(rs, z.source, z.target, z.alpha).weightedHits as real else 0.0
  }

  lemma CounterLast(z: Shift, rs: seq<Repetition>, r: Repetition)
    requires Valid(z)
    ensures CounterOf(z)(rs + [r]) == Times(1.0, E.Constant<Repetition>(WeightedHits(z)(r))(rs)) + CounterOf(z)(rs)
  {
    hide Contribution;
    assert (rs + [r])[..|rs|] == rs;
  }

  /** The counter's mean, when its last repetition is given. */
  lemma CounterBehind(z: Shift, reps: seq<E.Atom<Repetition>>, n: nat, r: Repetition)
    requires Valid(z) && E.Total(reps, E.One) == 1.0
    ensures E.Expect(reps, n, E.Behind(CounterOf(z), r)) == E.Expect(reps, n, CounterOf(z)) + WeightedHits(z)(r)
  {
    var f, hit := CounterOf(z), WeightedHits(z)(r);
    forall t: seq<Repetition> | |t| == n ensures E.Behind(f, r)(t) == E.Plus(1.0, E.Constant(hit), f)(t) {
      CounterLast(z, t, r);
    }
    hide CounterOf, WeightedHits, E.Expect, E.Total, E.Plus, E.Constant, Times;
    E.ExpectSame(reps, n, E.Behind(f, r), E.Plus(1.0, E.Constant(hit), f));
    E.ExpectPlus(reps, n, 1.0, E.Constant(hit), f);
    E.ExpectConstant(reps, n, hit);
    TimesOne(hit);
  }

  lemma TimesShare(p: real, hit: real, mean: real, rest: real, hits: real)
    ensures Times(p, mean + hit) + (Times(rest, mean) + hits)
         == Times(Times(p, 1.0) + rest, mean) + (Times(p, hit) + hits)
  {
    assert p * (mean + hit) == p * mean + p * hit;
    assert (p + rest) * mean == p * mean + rest * mean;
  }

  lemma {:induction false} CounterOver(z: Shift, reps: seq<E.Atom<Repetition>>, atoms: seq<E.Atom<Repetition>>, n: nat)
    requires Valid(z) && E.Total(reps, E.One) == 1.0
    ensures E.ExpectOver(reps, atoms, n, CounterOf(z))
         == Times(E.Total(atoms, E.One), E.Expect(reps, n, CounterOf(z))) + E.Total(atoms, WeightedHits(z))
    decreases |atoms|
  {
    var mean := E.Expect(reps, n, CounterOf(z));
    hide CounterOf, WeightedHits, E.Expect;
    if atoms == [] {
      assert Times(0.0, mean) == 0.0;
    } else {
      var p, r := atoms[0].p, atoms[0].value;
      CounterOver(z, reps, atoms[1..], n);
      CounterBehind(z, reps, n, r);
      TimesShare(p, WeightedHits(z)(r), mean, E.Total(atoms[1..], E.One), E.Total(atoms[1..], WeightedHits(z)));
      hide Times, E.Behind;
    }
  }

  /** The counter's mean is the number of repetitions times the probability of a hit. */
  lemma {:induction false} CounterMean(z: Shift, reps: seq<E.Atom<Repetition>>, count: nat)
    requires Valid(z) && E.Total(reps, E.One) == 1.0
    ensures E.Expect(reps, count, CounterOf(z)) == Times(count as real, E.Total(reps, WeightedHits(z)))
  {
    var hit := E.Total(reps, WeightedHits(z));
    if count == 0 {
      CounterEmpty(z);
      assert Times(0.0, hit) == 0.0;
    } else {
      CounterMean(z, reps, count - 1);
      CounterOver(z, reps, reps, count - 1);
      TimesOne(E.Expect(reps, count - 1, CounterOf(z)));
      TimesOne(hit);
      OneMoreTime(count, hit);
      hide CounterOf, WeightedHits, Times;
    }
  }

  lemma CounterEmpty(z: Shift)
    requires Valid(z)
    ensures CounterOf(z)([]) == 0.0
  {
  }

  lemma PartIs(hits: real, n: real)
    requires n > 0.0
    ensures hits / n == Times(1.0 / n, hits)
  {
  }

  lemma ReportIsCounter(z: Shift, rs: seq<Repetition>)
    requires Valid(z) && rs != []
    ensures ReportedCoverage(z)(rs)
         == E.Plus(1.0 / |rs| as real, CounterOf(z), E.Constant(0.0))(rs)
  {
    hide Contributions;
    PartIs(Contributions(rs, z.source, z.target, z.alpha).weightedHits as real, |rs| as real);
    hide Times;
  }

  lemma PartOfWhole(n: real, x: real)
    requires n > 0.0
    ensures Times(1.0 / n, Times(n, x)) == x
  {
    var q := 1.0 / n;
    assert q * n == 1.0;
    assert q * (n * x) == (q * n) * x;
  }

  /** The reported weighted coverage has the probability of a hit as its mean. */
  lemma ReportMean(z: Shift, reps: seq<E.Atom<Repetition>>, count: nat)
    requires Valid(z) && E.Total(reps, E.One) == 1.0 && count > 0
    ensures E.Expect(reps, count, ReportedCoverage(z)) == E.Total(reps, WeightedHits(z))
  {
    hide WeightedHits, E.Expect, E.Total, Times;
    var part := E.Plus(1.0 / count as real, CounterOf(z), E.Constant(0.0));
    forall rs: seq<Repetition> | |rs| == count ensures ReportedCoverage(z)(rs) == part(rs) { ReportIsCounter(z, rs); }
    hide ReportedCoverage, CounterOf;
    E.ExpectSame(reps, count, ReportedCoverage(z), part);
    E.ExpectPlus(reps, count, 1.0 / count as real, CounterOf(z), E.Constant(0.0));
    E.ExpectZero(reps, count);
    CounterMean(z, reps, count);
    PartOfWhole(count as real, E.Total(reps, WeightedHits(z)));
  }

  /**
    For every finite source law, calibration size and shift, and any number of independent repetitions, the
    weighted coverage the simulation reports has a mean of at least 1 - alpha.
  */
  lemma ReportedCoverageTheorem(z: Shift, law: Law, n: nat, count: nat)
    requires Valid(z) && IsSource(z, law) && count > 0
    ensures E.Expect(Repetitions(z, law, n), count, ReportedCoverage(z)) >= 1.0 - z.alpha
  {
    hide Repetitions, E.Expect, E.Total, ReportedCoverage, HitProbability, IsSource;
    RepetitionsLaw(z, law, n);
    ReportMean(z, Repetitions(z, law, n), count);
    RepetitionsHit(z, law, n);
    MarginalCoverageTheorem(z, law, n);
  }
}
