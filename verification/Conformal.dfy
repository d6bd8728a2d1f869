/**
  The split-conformal radii of examples/conformal_reproduction/run.py, over exact reals.

  `Radii` runs the source's sort, prefix sums, `bisect_left` and rank lookup. Its contract does not
  mention any of them: it places each radius among the calibration scores by the mass at or below it.
  From that the leave-one-out coverage theorem follows, in both directions.
*/
module Conformal {
  import opened Reals

  datatype Point = Point(score: real, weight: real)
  datatype Radius = Finite(value: real) | Infinite

  predicate Covers(radius: Radius, score: real) {
    radius.Infinite? || score <= radius.value
  }

  // ---------------------------------------------------------------------------------------------
  // Mass and counts
  // ---------------------------------------------------------------------------------------------

  /** A down-closed set of scores. */
  datatype Cut = All | UpTo(score: real) | Below(score: real)

  predicate Within(cut: Cut, score: real) {
    match cut
    case All => true
    case UpTo(s) => score <= s
    case Below(s) => score < s
  }

  /** The total weight of the points whose score lies in the cut. */
  function Mass(ps: seq<Point>, cut: Cut): real {
    if ps == [] then 0.0
    else (if Within(cut, ps[0].score) then ps[0].weight else 0.0) + Mass(ps[1..], cut)
  }

  /** The number of points whose score lies in the cut. */
  function Count(ps: seq<Point>, cut: Cut): nat {
    if ps == [] then 0
    else (if Within(cut, ps[0].score) then 1 else 0) + Count(ps[1..], cut)
  }

  ghost predicate Positive(ps: seq<Point>) {
    forall p <- ps :: p.weight > 0.0
  }

  ghost predicate HasScore(ps: seq<Point>, s: real) {
    exists p <- ps :: p.score == s
  }

  /** The smallest score at or below which at least `target` mass lies; infinite if there is none. */
  ghost predicate IsQuantile(ps: seq<Point>, target: real, radius: Radius) {
    match radius
    case Infinite => Mass(ps, All) < target
    case Finite(s) => HasScore(ps, s) && Mass(ps, Below(s)) < target <= Mass(ps, UpTo(s))
  }

  /** The score of rank `rank` counted from one; infinite if there are fewer points. */
  ghost predicate IsOrderStatistic(ps: seq<Point>, rank: int, radius: Radius) {
    match radius
    case Infinite => |ps| < rank
    case Finite(s) => HasScore(ps, s) && Count(ps, Below(s)) < rank <= Count(ps, UpTo(s))
  }

  /** The part of `total` that a radius at level `alpha` has to reach. */
  function Share(alpha: real, total: real): real {
    (1.0 - alpha) * total
  }

  /** The mass the weighted radius must reach; the test point's own weight sits at infinity. */
  function Target(ps: seq<Point>, testWeight: real, alpha: real): real {
    Share(alpha, Mass(ps, All) + testWeight)
  }

  function Rank(size: nat, alpha: real): int {
    Ceiling(Share(alpha, (size + 1) as real))
  }

  lemma ShareBounds(alpha: real, total: real)
    requires 0.0 < alpha < 1.0
    ensures total > 0.0 ==> 0.0 < Share(alpha, total) < total
    ensures total == 0.0 ==> Share(alpha, total) == 0.0
  {
    assert total - Share(alpha, total) == alpha * total;
  }

  lemma {:induction false} MassConcat(a: seq<Point>, b: seq<Point>, cut: Cut)
    ensures Mass(a + b, cut) == Mass(a, cut) + Mass(b, cut)
  {
    if a == [] {
      assert a + b == b;
    } else {
      assert (a + b)[1..] == a[1..] + b;
      MassConcat(a[1..], b, cut);
    }
  }

  /** A cut that holds more scores of `ps` holds at least as much mass. */
  lemma {:induction false} MassMonotone(ps: seq<Point>, small: Cut, large: Cut)
    requires Positive(ps)
    requires forall p <- ps :: Within(small, p.score) ==> Within(large, p.score)
    ensures 0.0 <= Mass(ps, small) <= Mass(ps, large)
  {
    if ps != [] {
      assert forall p <- ps[1..] :: p in ps;
      MassMonotone(ps[1..], small, large);
    }
  }

  lemma {:induction false} MassNone(ps: seq<Point>, cut: Cut)
    requires forall p <- ps :: !Within(cut, p.score)
    ensures Mass(ps, cut) == 0.0
  {
    if ps != [] {
      assert forall p <- ps[1..] :: p in ps;
      MassNone(ps[1..], cut);
    }
  }

  function Multiple(weight: real, n: nat): real {
    weight * n as real
  }

  lemma MultipleOneMore(weight: real, n: nat)
    ensures Multiple(weight, 0) == 0.0 && Multiple(weight, n + 1) == weight + Multiple(weight, n)
  {
  }

  /** With one common weight, mass is that weight times a count. */
  lemma {:induction false} MassIsCount(ps: seq<Point>, weight: real, cut: Cut)
    requires forall p <- ps :: p.weight == weight
    ensures Mass(ps, cut) == Multiple(weight, Count(ps, cut))
  {
    hide Multiple;
    MultipleOneMore(weight, if ps == [] then 0 else Count(ps[1..], cut));
    if ps != [] {
      assert forall p <- ps[1..] :: p in ps;
      assert ps[0].weight == weight;
      MassIsCount(ps[1..], weight, cut);
    }
  }

  lemma {:induction false} CountAll(ps: seq<Point>)
    ensures Count(ps, All) == |ps|
  {
    if ps != [] { CountAll(ps[1..]); }
  }

  // ---------------------------------------------------------------------------------------------
  // Sorting: calibration.sort() orders the pairs lexicographically
  // ---------------------------------------------------------------------------------------------

  predicate Before(p: Point, q: Point) {
    p.score < q.score || (p.score == q.score && p.weight <= q.weight)
  }

  ghost predicate Ordered(ps: seq<Point>) {
    forall i, j :: 0 <= i < j < |ps| ==> Before(ps[i], ps[j])
  }

  function Insert(p: Point, ps: seq<Point>): (r: seq<Point>)
    requires Ordered(ps)
    ensures Ordered(r) && |r| == |ps| + 1
    ensures forall q :: q in r <==> q == p || q in ps
  {
    if ps == [] || Before(p, ps[0]) then [p] + ps
    else
      assert ps == [ps[0]] + ps[1..];
      var rest := Insert(p, ps[1..]);
      assert forall q <- rest :: Before(ps[0], q);
      [ps[0]] + rest
  }

  function Sort(ps: seq<Point>): (r: seq<Point>)
    ensures Ordered(r) && |r| == |ps|
    ensures forall q :: q in r <==> q in ps
  {
    if ps == [] then []
    else
      assert ps == [ps[0]] + ps[1..];
      Insert(ps[0], Sort(ps[1..]))
  }

  lemma {:induction false} InsertKeepsMass(p: Point, ps: seq<Point>, cut: Cut)
    requires Ordered(ps)
    ensures Mass(Insert(p, ps), cut) == Mass([p] + ps, cut)
    ensures Count(Insert(p, ps), cut) == Count([p] + ps, cut)
  {
    assert ([p] + ps)[1..] == ps;
    if ps == [] || Before(p, ps[0]) {
    } else {
      InsertKeepsMass(p, ps[1..], cut);
      var rest := Insert(p, ps[1..]);
      assert ([p] + ps[1..])[1..] == ps[1..];
      assert ([ps[0]] + rest)[1..] == rest;
    }
  }

  lemma {:induction false} SortKeepsMass(ps: seq<Point>, cut: Cut)
    ensures Mass(Sort(ps), cut) == Mass(ps, cut)
    ensures Count(Sort(ps), cut) == Count(ps, cut)
  {
    if ps != [] {
      SortKeepsMass(ps[1..], cut);
      var rest := Sort(ps[1..]);
      InsertKeepsMass(ps[0], rest, cut);
      assert ([ps[0]] + rest)[1..] == rest;
    }
  }

  /** Around position i of an ordered list, prefix sums bound the mass below and up to its score. */
  lemma MassAroundIndex(ps: seq<Point>, i: nat)
    requires Ordered(ps) && Positive(ps) && i < |ps|
    ensures Mass(ps, Below(ps[i].score)) <= Mass(ps[..i], All)
    ensures Mass(ps[..i + 1], All) <= Mass(ps, UpTo(ps[i].score))
  {
    var s := ps[i].score;
    assert ps == ps[..i] + ps[i..] && ps == ps[..i + 1] + ps[i + 1..];
    MassConcat(ps[..i], ps[i..], Below(s));
    MassNone(ps[i..], Below(s));
    MassMonotone(ps[..i], Below(s), All);
    MassConcat(ps[..i + 1], ps[i + 1..], UpTo(s));
    MassMonotone(ps[i + 1..], UpTo(s), UpTo(s));
    MassMonotone(ps[..i + 1], All, UpTo(s));
  }

  function Unit(ps: seq<Point>): seq<Point> {
    seq(|ps|, i requires 0 <= i < |ps| => Point(ps[i].score, 1.0))
  }

  lemma {:induction false} UnitMass(ps: seq<Point>, cut: Cut)
    ensures Mass(Unit(ps), cut) == Count(ps, cut) as real
  {
    if ps != [] {
      assert Unit(ps)[1..] == Unit(ps[1..]);
      UnitMass(ps[1..], cut);
    }
  }

  /** The same bounds for counts: position i of an ordered list has rank i + 1. */
  lemma CountAroundIndex(ps: seq<Point>, i: nat)
    requires Ordered(ps) && i < |ps|
    ensures Count(ps, Below(ps[i].score)) <= i < Count(ps, UpTo(ps[i].score))
  {
    var unit := Unit(ps);
    forall j, k | 0 <= j < k < |unit| ensures Before(unit[j], unit[k]) {
      assert Before(ps[j], ps[k]);
    }
    MassAroundIndex(unit, i);
    assert unit[..i] == Unit(ps[..i]) && unit[..i + 1] == Unit(ps[..i + 1]);
    UnitMass(ps, Below(ps[i].score));
    UnitMass(ps, UpTo(ps[i].score));
    UnitMass(ps[..i], All);
    UnitMass(ps[..i + 1], All);
    CountAll(ps[..i]);
    CountAll(ps[..i + 1]);
  }

  // ---------------------------------------------------------------------------------------------
  // The computation
  // ---------------------------------------------------------------------------------------------

  /** bisect.bisect_left */
  method BisectLeft(a: seq<real>, x: real) returns (index: nat)
    requires forall i, j :: 0 <= i < j < |a| ==> a[i] <= a[j]
    ensures index <= |a|
    ensures forall i :: 0 <= i < index ==> a[i] < x
    ensures forall i :: index <= i < |a| ==> x <= a[i]
  {
    index := 0;
    var high := |a|;
    while index < high
      invariant 0 <= index <= high <= |a|
      invariant forall i :: 0 <= i < index ==> a[i] < x
      invariant forall i :: high <= i < |a| ==> x <= a[i]
    {
      var mid := (index + high) / 2;
      if a[mid] < x { index := mid + 1; } else { high := mid; }
    }
  }

  /** The first prefix of an ordered list to reach the target ends at the quantile. */
  lemma PrefixMassLocates(ps: seq<Point>, target: real, index: nat)
    requires Ordered(ps) && Positive(ps) && target > 0.0 && index <= |ps|
    requires Mass(ps[..index], All) < target
    requires index < |ps| ==> target <= Mass(ps[..index + 1], All)
    ensures IsQuantile(ps, target, if index < |ps| then Finite(ps[index].score) else Infinite)
  {
    if index < |ps| {
      MassAroundIndex(ps, index);
      assert HasScore(ps, ps[index].score);
    } else {
      assert ps[..index] == ps;
    }
  }

  lemma SortKeepsQuantile(ps: seq<Point>, target: real, radius: Radius)
    requires IsQuantile(Sort(ps), target, radius)
    ensures IsQuantile(ps, target, radius)
  {
    hide Mass, Sort;
    SortKeepsMass(ps, All);
    if radius.Finite? {
      SortKeepsMass(ps, Below(radius.value));
      SortKeepsMass(ps, UpTo(radius.value));
    }
  }

  lemma RankLocates(ps: seq<Point>, rank: int)
    requires rank > 0
    ensures IsOrderStatistic(ps, rank, if rank <= |ps| then Finite(Sort(ps)[rank - 1].score) else Infinite)
  {
    if rank <= |ps| {
      var sorted := Sort(ps);
      CountAroundIndex(sorted, rank - 1);
      SortKeepsMass(ps, Below(sorted[rank - 1].score));
      SortKeepsMass(ps, UpTo(sorted[rank - 1].score));
      assert sorted[rank - 1] in ps;
    }
  }

  lemma PrefixGrows(ps: seq<Point>, i: nat)
    requires i < |ps|
    ensures Mass(ps[..i + 1], All) == Mass(ps[..i], All) + ps[i].weight
  {
    assert ps[..i + 1] == ps[..i] + [ps[i]];
    MassConcat(ps[..i], [ps[i]], All);
  }

  /** One repetition after its draws: the weighted and the ordinary radius. */
  method Radii(draws: seq<Point>, testWeight: real, alpha: real) returns (weighted: Radius, ordinary: Radius)
    requires Positive(draws) && testWeight > 0.0 && 0.0 < alpha < 1.0
    ensures IsQuantile(draws, Target(draws, testWeight, alpha), weighted)
    ensures IsOrderStatistic(draws, Rank(|draws|, alpha), ordinary)
  {
    hide Share, Ceiling, Count, Sort, IsQuantile, IsOrderStatistic;
    var calibration := Sort(draws);
    var cumulative: seq<real> := [];
    var total := 0.0;
    for i := 0 to |calibration|
      invariant |cumulative| == i && total == Mass(calibration[..i], All)
      invariant forall j :: 0 <= j < i ==> cumulative[j] == Mass(calibration[..j + 1], All)
      invariant forall j :: 0 <= j < i ==> cumulative[j] <= total
      invariant forall j, k :: 0 <= j < k < i ==> cumulative[j] <= cumulative[k]
      invariant Mass(calibration[..0], All) == 0.0
    {
      PrefixGrows(calibration, i);
      total := total + calibration[i].weight;
      cumulative := cumulative + [total];
    }
    assert calibration[..|calibration|] == calibration;
    SortKeepsMass(draws, All);
    MassMonotone(draws, All, All);
    hide Mass;
    ShareBounds(alpha, total + testWeight);
    var index := BisectLeft(cumulative, Share(alpha, total + testWeight));
    weighted := if index < |calibration| then Finite(calibration[index].score) else Infinite;
    assert Mass(calibration[..index], All) < Share(alpha, total + testWeight) by {
      assert index > 0 ==> cumulative[index - 1] < Share(alpha, total + testWeight);
    }
    assert index < |calibration| ==> cumulative[index] == Mass(calibration[..index + 1], All);
    PrefixMassLocates(calibration, Share(alpha, total + testWeight), index);
    SortKeepsQuantile(draws, Share(alpha, total + testWeight), weighted);
    ShareBounds(alpha, (|calibration| + 1) as real);
    var rank := Ceiling(Share(alpha, (|calibration| + 1) as real));
    ordinary := if rank <= |calibration| then Finite(calibration[rank - 1].score) else Infinite;
    RankLocates(draws, rank);
  }

  // ---------------------------------------------------------------------------------------------
  // What the radii mean
  // ---------------------------------------------------------------------------------------------

  /** A score is covered exactly when the mass strictly below it misses the target. */
  lemma CoverageCriterion(ps: seq<Point>, target: real, radius: Radius, score: real)
    requires Positive(ps) && IsQuantile(ps, target, radius)
    ensures Covers(radius, score) <==> Mass(ps, Below(score)) < target
  {
    match radius
    case Infinite => MassMonotone(ps, Below(score), All);
    case Finite(s) =>
      if score <= s {
        MassMonotone(ps, Below(score), Below(s));
      } else {
        MassMonotone(ps, UpTo(s), Below(score));
      }
  }

  /** The contract of `Radii` leaves no freedom: it determines the weighted radius. */
  lemma QuantileUnique(ps: seq<Point>, target: real, one: Radius, other: Radius)
    requires Positive(ps) && IsQuantile(ps, target, one) && IsQuantile(ps, target, other)
    ensures one == other
  {
    if one.Finite? { CoverageCriterion(ps, target, other, one.value); MassMonotone(ps, UpTo(one.value), All); }
    if other.Finite? { CoverageCriterion(ps, target, one, other.value); MassMonotone(ps, UpTo(other.value), All); }
  }

  /** The share the test point must leave uncovered exceeds what all the calibration mass may miss. */
  predicate TestMassDominates(alpha: real, testWeight: real, total: real) {
    (1.0 - alpha) * testWeight > alpha * total
  }

  /** The weighted radius is infinite exactly when the test mass at infinity outweighs the budget. */
  lemma InfiniteExactly(ps: seq<Point>, testWeight: real, alpha: real, radius: Radius)
    requires Positive(ps)
    requires IsQuantile(ps, Target(ps, testWeight, alpha), radius)
    ensures radius.Infinite? <==> TestMassDominates(alpha, testWeight, Mass(ps, All))
  {
    assert Target(ps, testWeight, alpha) - Mass(ps, All)
        == (1.0 - alpha) * testWeight - alpha * Mass(ps, All);
    if radius.Finite? { MassMonotone(ps, UpTo(radius.value), All); }
  }

  lemma WeightOrder(weight: real, x: real, y: real)
    requires weight > 0.0
    ensures weight * x < weight * y <==> x < y
  {
  }

  lemma BelowCeiling(x: real, m: int)
    ensures m < Ceiling(x) <==> m as real < x
  {
  }

  /** Missing the weighted target with m equal weights is having a rank below the ordinary one. */
  lemma EqualWeightsOrder(weight: real, alpha: real, n: nat, m: nat)
    requires weight > 0.0
    ensures Multiple(weight, m) < Share(alpha, Multiple(weight, n) + weight) <==> m < Rank(n, alpha)
  {
    var share := Share(alpha, (n + 1) as real);
    assert Share(alpha, Multiple(weight, n) + weight) == weight * share;
    WeightOrder(weight, m as real, share);
    BelowCeiling(share, m);
  }

  lemma MultipleOne(n: nat)
    ensures Multiple(1.0, n) == n as real
  {
  }

  /** With one common weight the weighted radius and the rank radius are the same radius. */
  lemma EqualWeightsReduce(ps: seq<Point>, weight: real, alpha: real, radius: Radius)
    requires weight > 0.0 && forall p <- ps :: p.weight == weight
    ensures IsQuantile(ps, Target(ps, weight, alpha), radius)
       <==> IsOrderStatistic(ps, Rank(|ps|, alpha), radius)
  {
    hide Share, Mass, Count, Rank, Multiple;
    MassIsCount(ps, weight, All);
    CountAll(ps);
    match radius
    case Infinite => EqualWeightsOrder(weight, alpha, |ps|, |ps|);
    case Finite(s) =>
      MassIsCount(ps, weight, Below(s));
      MassIsCount(ps, weight, UpTo(s));
      EqualWeightsOrder(weight, alpha, |ps|, Count(ps, Below(s)));
      EqualWeightsOrder(weight, alpha, |ps|, Count(ps, UpTo(s)));
  }

  // ---------------------------------------------------------------------------------------------
  // Leave-one-out coverage
  // ---------------------------------------------------------------------------------------------

  function Others(ps: seq<Point>, i: nat): seq<Point>
    requires i < |ps|
  {
    ps[..i] + ps[i + 1..]
  }

  /** radii[i] is the weighted radius of point i, calibrated on all the other points. */
  ghost predicate LeaveOneOut(ps: seq<Point>, alpha: real, radii: seq<Radius>) {
    |radii| == |ps| &&
    forall i :: 0 <= i < |ps| ==>
      IsQuantile(Others(ps, i), Target(Others(ps, i), ps[i].weight, alpha), radii[i])
  }

  /** The total weight of the points their own radius covers. */
  function CoveredWeight(ps: seq<Point>, radii: seq<Radius>): real
    requires |ps| == |radii|
  {
    if ps == [] then 0.0
    else (if Covers(radii[0], ps[0].score) then ps[0].weight else 0.0) + CoveredWeight(ps[1..], radii[1..])
  }

  lemma MassWithout(ps: seq<Point>, i: nat, cut: Cut)
    requires i < |ps|
    ensures Mass(ps, cut)
         == Mass(Others(ps, i), cut) + (if Within(cut, ps[i].score) then ps[i].weight else 0.0)
  {
    assert ps == ps[..i] + ([ps[i]] + ps[i + 1..]);
    MassConcat(ps[..i], [ps[i]] + ps[i + 1..], cut);
    MassConcat([ps[i]], ps[i + 1..], cut);
    MassConcat(ps[..i], ps[i + 1..], cut);
  }

  /** Every radius is the quantile of the other points at one and the same target. */
  ghost predicate LeaveOneOutAt(ps: seq<Point>, target: real, radii: seq<Radius>) {
    |radii| == |ps| &&
    forall i :: 0 <= i < |ps| ==> IsQuantile(Others(ps, i), target, radii[i])
  }

  /** Leaving one point out and adding its weight back as test weight gives all points one target. */
  lemma LeaveOneOutTarget(ps: seq<Point>, alpha: real, radii: seq<Radius>)
    ensures LeaveOneOut(ps, alpha, radii) <==> LeaveOneOutAt(ps, Share(alpha, Mass(ps, All)), radii)
  {
    hide Share, Mass;
    forall i | 0 <= i < |ps|
      ensures Target(Others(ps, i), ps[i].weight, alpha) == Share(alpha, Mass(ps, All))
    {
      MassWithout(ps, i, All);
    }
  }

  /** A point is covered by its own radius exactly when less than the target lies below it. */
  lemma LeaveOneOutCriterion(ps: seq<Point>, target: real, radii: seq<Radius>, i: nat)
    requires Positive(ps) && LeaveOneOutAt(ps, target, radii) && i < |ps|
    ensures Covers(radii[i], ps[i].score) <==> Mass(ps, Below(ps[i].score)) < target
  {
    MassWithout(ps, i, Below(ps[i].score));
    CoverageCriterion(Others(ps, i), target, radii[i], ps[i].score);
  }

  lemma {:induction false} CoveredAtLeast(ps: seq<Point>, radii: seq<Radius>, cut: Cut)
    requires Positive(ps) && |ps| == |radii|
    requires forall i :: 0 <= i < |ps| && Within(cut, ps[i].score) ==> Covers(radii[i], ps[i].score)
    ensures Mass(ps, cut) <= CoveredWeight(ps, radii)
  {
    if ps != [] {
      assert forall i :: 0 <= i < |ps[1..]| ==> ps[1..][i] == ps[i + 1] && radii[1..][i] == radii[i + 1];
      CoveredAtLeast(ps[1..], radii[1..], cut);
    }
  }

  lemma {:induction false} CoveredAtMost(ps: seq<Point>, radii: seq<Radius>, cut: Cut)
    requires Positive(ps) && |ps| == |radii|
    requires forall i :: 0 <= i < |ps| && Covers(radii[i], ps[i].score) ==> Within(cut, ps[i].score)
    ensures CoveredWeight(ps, radii) <= Mass(ps, cut)
  {
    if ps != [] {
      assert forall i :: 0 <= i < |ps[1..]| ==> ps[1..][i] == ps[i + 1] && radii[1..][i] == radii[i + 1];
      CoveredAtMost(ps[1..], radii[1..], cut);
    }
  }

  /** Some uncovered point has the least score of all uncovered points. */
  lemma {:induction false} LeastUncovered(ps: seq<Point>, radii: seq<Radius>, n: nat) returns (least: int)
    requires |ps| == |radii| && n <= |ps|
    ensures least == -1 ==> forall i :: 0 <= i < n ==> Covers(radii[i], ps[i].score)
    ensures least != -1 ==> 0 <= least < n && !Covers(radii[least], ps[least].score)
    ensures forall i :: 0 <= i < n && !Covers(radii[i], ps[i].score) ==> ps[least].score <= ps[i].score
  {
    least := -1;
    if n > 0 {
      least := LeastUncovered(ps, radii, n - 1);
      if !Covers(radii[n - 1], ps[n - 1].score) && (least == -1 || ps[n - 1].score < ps[least].score) {
        least := n - 1;
      }
    }
  }

  lemma {:induction false} GreatestCovered(ps: seq<Point>, radii: seq<Radius>, n: nat) returns (greatest: int)
    requires |ps| == |radii| && n <= |ps|
    ensures greatest == -1 ==> forall i :: 0 <= i < n ==> !Covers(radii[i], ps[i].score)
    ensures greatest != -1 ==> 0 <= greatest < n && Covers(radii[greatest], ps[greatest].score)
    ensures forall i :: 0 <= i < n && Covers(radii[i], ps[i].score) ==> ps[i].score <= ps[greatest].score
  {
    greatest := -1;
    if n > 0 {
      greatest := GreatestCovered(ps, radii, n - 1);
      if Covers(radii[n - 1], ps[n - 1].score) && (greatest == -1 || ps[greatest].score < ps[n - 1].score) {
        greatest := n - 1;
      }
    }
  }

  /** Any target the whole list can reach is covered. */
  lemma QuantileCoverage(ps: seq<Point>, target: real, radii: seq<Radius>)
    requires Positive(ps) && target <= Mass(ps, All) && LeaveOneOutAt(ps, target, radii)
    ensures target <= CoveredWeight(ps, radii)
  {
    var least := LeastUncovered(ps, radii, |ps|);
    if least == -1 {
      CoveredAtLeast(ps, radii, All);
    } else {
      LeaveOneOutCriterion(ps, target, radii, least);
      CoveredAtLeast(ps, radii, Below(ps[least].score));
    }
  }

  /** Coverage overshoots its target by less than the mass tied at one score. */
  lemma QuantileOvershoot(ps: seq<Point>, target: real, radii: seq<Radius>) returns (tie: real)
    requires ps != [] && Positive(ps) && target > 0.0 && LeaveOneOutAt(ps, target, radii)
    ensures HasScore(ps, tie)
    ensures CoveredWeight(ps, radii) < target + (Mass(ps, UpTo(tie)) - Mass(ps, Below(tie)))
  {
    var greatest := GreatestCovered(ps, radii, |ps|);
    if greatest == -1 {
      tie := ps[0].score;
      MassMonotone(ps, Below(tie), UpTo(tie));
      NothingCovered(ps, radii);
    } else {
      tie := ps[greatest].score;
      LeaveOneOutCriterion(ps, target, radii, greatest);
      CoveredAtMost(ps, radii, UpTo(tie));
    }
  }

  /** Coverage: leave-one-out radii cover at least 1 - alpha of the total weight. */
  lemma CoverageTheorem(ps: seq<Point>, alpha: real, radii: seq<Radius>)
    requires Positive(ps) && 0.0 < alpha < 1.0 && LeaveOneOut(ps, alpha, radii)
    ensures Share(alpha, Mass(ps, All)) <= CoveredWeight(ps, radii)
  {
    MassMonotone(ps, All, All);
    ShareBounds(alpha, Mass(ps, All));
    LeaveOneOutTarget(ps, alpha, radii);
    QuantileCoverage(ps, Share(alpha, Mass(ps, All)), radii);
  }

  /** Tightness: the excess over 1 - alpha is less than the mass tied at one score. */
  lemma CoverageUpperBound(ps: seq<Point>, alpha: real, radii: seq<Radius>) returns (tie: real)
    requires ps != [] && Positive(ps) && 0.0 < alpha < 1.0 && LeaveOneOut(ps, alpha, radii)
    ensures HasScore(ps, tie)
    ensures CoveredWeight(ps, radii)
          < Share(alpha, Mass(ps, All)) + (Mass(ps, UpTo(tie)) - Mass(ps, Below(tie)))
  {
    MassMonotone(ps[1..], All, All);
    ShareBounds(alpha, Mass(ps, All));
    LeaveOneOutTarget(ps, alpha, radii);
    tie := QuantileOvershoot(ps, Share(alpha, Mass(ps, All)), radii);
  }

  lemma {:induction false} NothingCovered(ps: seq<Point>, radii: seq<Radius>)
    requires |ps| == |radii| && forall i :: 0 <= i < |ps| ==> !Covers(radii[i], ps[i].score)
    ensures CoveredWeight(ps, radii) == 0.0
  {
    if ps != [] {
      assert forall i :: 0 <= i < |ps[1..]| ==> ps[1..][i] == ps[i + 1] && radii[1..][i] == radii[i + 1];
      NothingCovered(ps[1..], radii[1..]);
    }
  }
}
