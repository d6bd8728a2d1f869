/**
  Interpolated percentiles, the paired bootstrap and the paired comparison table of
  benchmark/arc_bench/paper_add_analysis.py, over exact reals. The resampled indexes replace the
  random generator.
*/
module PairedStatistics {
  import opened Wrappers
  import McNemar
  import opened Reals

  // ---------------------------------------------------------------------------------------------
  // Percentiles
  // ---------------------------------------------------------------------------------------------

  ghost predicate Ascending(xs: seq<real>) {
    forall i, j :: 0 <= i < j < |xs| ==> xs[i] <= xs[j]
  }

  function Insert(x: real, xs: seq<real>): (r: seq<real>)
    requires Ascending(xs)
    ensures Ascending(r) && |r| == |xs| + 1
    ensures r[0] == x || (xs != [] && r[0] == xs[0])
  {
    if xs == [] || x <= xs[0] then [x] + xs
    else [xs[0]] + Insert(x, xs[1..])
  }

  function Sort(xs: seq<real>): (r: seq<real>)
    ensures Ascending(r) && |r| == |xs|
  {
    if xs == [] then [] else Insert(xs[0], Sort(xs[1..]))
  }

  lemma {:induction false} InsertPermutes(x: real, xs: seq<real>)
    requires Ascending(xs)
    ensures multiset(Insert(x, xs)) == multiset{x} + multiset(xs)
  {
    if xs != [] {
      assert xs == [xs[0]] + xs[1..];
      if x > xs[0] { InsertPermutes(x, xs[1..]); }
    }
  }

  lemma {:induction false} SortPermutes(xs: seq<real>)
    ensures multiset(Sort(xs)) == multiset(xs)
  {
    if xs != [] {
      assert xs == [xs[0]] + xs[1..];
      SortPermutes(xs[1..]);
      InsertPermutes(xs[0], Sort(xs[1..]));
    }
  }

  lemma SortMember(xs: seq<real>, k: nat) returns (i: nat)
    requires k < |xs|
    ensures i < |xs| && xs[i] == Sort(xs)[k]
  {
    SortPermutes(xs);
    hide Sort;
    assert Sort(xs)[k] in multiset(Sort(xs));
    i :| 0 <= i < |xs| && xs[i] == Sort(xs)[k];
  }

  /** sorted[index] in Python: a negative index counts from the end, others out of range raise IndexError. */
  function At(sorted: seq<real>, index: int): Option<real> {
    if 0 <= index < |sorted| then Some(sorted[index])
    else if -|sorted| <= index < 0 then Some(sorted[|sorted| + index])
    else None
  }

  /** Linear interpolation between the two neighbours of a position in a sorted list. */
  function Interpolate(sorted: seq<real>, position: real): Option<real> {
    var lower, upper := position.Floor, Ceiling(position);
    var a, b := At(sorted, lower), At(sorted, upper);
    if a.None? || b.None? then None
    else if lower == upper then a
    else Some(Blend(a.value, b.value, position - lower as real))
  }

  function Blend(a: real, b: real, t: real): real {
    a + (b - a) * t
  }

  lemma BlendLandmarks(a: real, b: real)
    ensures Blend(a, b, 0.0) == a && Blend(a, b, 1.0) == b && Blend(a, b, 0.5) == (a + b) / 2.0
  {
  }

  function Position(size: nat, fraction: real): real {
    (size - 1) as real * fraction
  }

  datatype Quantile = Value(value: real) | NaN | IndexError

  /** `percentile` */
  function Percentile(values: seq<real>, fraction: real): Quantile {
    if values == [] then NaN
    else
      var found := Interpolate(Sort(values), Position(|values|, fraction));
      if found.Some? then Value(found.value) else IndexError
  }

  lemma SlopeMonotone(rise: real, s: real, t: real)
    requires rise >= 0.0 && s <= t
    ensures rise * s <= rise * t
  {
    assert rise * t - rise * s == rise * (t - s);
  }

  lemma PositionMonotone(size: nat, f: real, g: real)
    requires size > 0 && f <= g
    ensures Position(size, f) <= Position(size, g)
  {
    SlopeMonotone((size - 1) as real, f, g);
  }

  lemma PositionLandmarks(size: nat)
    requires size > 0
    ensures Position(size, 0.0) == 0.0
    ensures Position(size, 0.5) == ((size - 1) / 2) as real + if size % 2 == 1 then 0.0 else 0.5
    ensures Position(size, 1.0) == (size - 1) as real
  {
  }

  lemma InterpolateExactly(sorted: seq<real>, position: real)
    requires sorted != []
    ensures Interpolate(sorted, position).Some? <==> -|sorted| as real <= position <= (|sorted| - 1) as real
  {
    hide Blend;
  }

  /** A percentile has a value exactly when its position is an index, counted from the front or from the end. */
  lemma PercentileDefined(values: seq<real>, fraction: real)
    ensures Percentile(values, fraction) == NaN <==> values == []
    ensures Percentile(values, fraction).Value?
       <==> values != [] && -|values| as real <= Position(|values|, fraction) <= (|values| - 1) as real
    ensures values != [] && 0.0 <= fraction <= 1.0 ==> Percentile(values, fraction).Value?
  {
    hide Sort, Interpolate;
    if values != [] {
      InterpolateExactly(Sort(values), Position(|values|, fraction));
      if 0.0 <= fraction <= 1.0 {
        PositionLandmarks(|values|);
        PositionMonotone(|values|, 0.0, fraction);
        PositionMonotone(|values|, fraction, 1.0);
      }
    }
  }

  /** Two neighbours and what is between them, whichever is larger. */
  lemma BetweenEnds(a: real, b: real, t: real, low: real, high: real)
    requires 0.0 <= t <= 1.0 && low <= a <= high && low <= b <= high
    ensures low <= Blend(a, b, t) <= high
  {
    if a <= b {
      PartBounds(b - a, t, (b - a) * t);
    } else {
      PartBounds(a - b, t, (a - b) * t);
      assert (b - a) * t == -((a - b) * t);
    }
  }

  /** An interpolated value lies between the two elements it comes from. */
  lemma BetweenNeighbours(sorted: seq<real>, position: real, low: real, high: real)
    requires Interpolate(sorted, position).Some?
    requires low <= At(sorted, position.Floor).value <= high && low <= At(sorted, Ceiling(position)).value <= high
    ensures low <= Interpolate(sorted, position).value <= high
  {
    hide At;
    var lower, upper := position.Floor, Ceiling(position);
    if lower != upper {
      BetweenEnds(At(sorted, lower).value, At(sorted, upper).value, position - lower as real, low, high);
    }
  }

  lemma NeighboursOrdered(sorted: seq<real>, i: nat, j: nat)
    requires Ascending(sorted) && i <= j < |sorted|
    ensures sorted[i] <= sorted[j]
  {
  }

  lemma InterpolateMonotone(sorted: seq<real>, p: real, q: real)
    requires Ascending(sorted) && 0.0 <= p <= q <= (|sorted| - 1) as real
    ensures Interpolate(sorted, p).Some? && Interpolate(sorted, q).Some?
    ensures Interpolate(sorted, p).value <= Interpolate(sorted, q).value
  {
    InterpolateExactly(sorted, p);
    InterpolateExactly(sorted, q);
    if p.Floor == q.Floor {
      SameSegment(sorted, p, q);
    } else {
      var middle := sorted[Ceiling(p)];
      NeighboursOrdered(sorted, p.Floor, Ceiling(p));
      NeighboursOrdered(sorted, Ceiling(p), q.Floor);
      NeighboursOrdered(sorted, q.Floor, Ceiling(q));
      BetweenNeighbours(sorted, p, sorted[p.Floor], middle);
      BetweenNeighbours(sorted, q, middle, sorted[Ceiling(q)]);
    }
  }

  lemma BlendMonotone(a: real, b: real, s: real, t: real)
    requires s <= t
    ensures a <= b ==> Blend(a, b, s) <= Blend(a, b, t)
    ensures a >= b ==> Blend(a, b, s) >= Blend(a, b, t)
  {
    if a <= b { SlopeMonotone(b - a, s, t); }
    if a >= b {
      SlopeMonotone(a - b, s, t);
      assert (b - a) * s == -((a - b) * s) && (b - a) * t == -((a - b) * t);
    }
  }

  lemma SameSegment(sorted: seq<real>, p: real, q: real)
    requires Ascending(sorted) && 0.0 <= p <= q <= (|sorted| - 1) as real && p.Floor == q.Floor
    requires Interpolate(sorted, p).Some? && Interpolate(sorted, q).Some?
    ensures Interpolate(sorted, p).value <= Interpolate(sorted, q).value
  {
    var lower := p.Floor;
    if p == lower as real {
      NeighboursOrdered(sorted, lower, Ceiling(q));
      BetweenNeighbours(sorted, q, sorted[lower], sorted[Ceiling(q)]);
    } else {
      assert Ceiling(p) == Ceiling(q) == lower + 1;
      BlendMonotone(sorted[lower], sorted[lower + 1], p - lower as real, q - lower as real);
      hide Blend;
    }
  }

  /** Positions up to -1 count from the end: they are positions of the list shifted by its length. */
  lemma InterpolateWraps(sorted: seq<real>, position: real)
    requires -|sorted| as real <= position <= -1.0
    ensures Interpolate(sorted, position) == Interpolate(sorted, position + |sorted| as real)
  {
    hide Blend;
    var shifted := position + |sorted| as real;
    assert shifted - shifted.Floor as real == position - position.Floor as real;
    assert (position + |sorted| as real).Floor == position.Floor + |sorted|;
    assert Ceiling(position + |sorted| as real) == Ceiling(position) + |sorted|;
  }

  /** Between -1 and 0 the neighbours are the last and the first element, so values fall. */
  lemma InterpolateFalls(sorted: seq<real>, p: real, q: real)
    requires Ascending(sorted) && sorted != [] && -1.0 <= p <= q <= 0.0
    ensures Interpolate(sorted, p).Some? && Interpolate(sorted, q).Some?
    ensures Interpolate(sorted, p).value >= Interpolate(sorted, q).value
  {
    hide Interpolate, Blend;
    NeighboursOrdered(sorted, 0, |sorted| - 1);
    InterpolateSeam(sorted, p);
    InterpolateSeam(sorted, q);
    BlendMonotone(sorted[|sorted| - 1], sorted[0], p + 1.0, q + 1.0);
  }

  lemma InterpolateSeam(sorted: seq<real>, p: real)
    requires sorted != [] && -1.0 <= p <= 0.0
    ensures Interpolate(sorted, p) == Some(Blend(sorted[|sorted| - 1], sorted[0], p + 1.0))
  {
    BlendLandmarks(sorted[|sorted| - 1], sorted[0]);
    hide Blend;
    if -1.0 < p < 0.0 { assert p.Floor == -1 && Ceiling(p) == 0; }
  }

  /**
    A percentile grows with its fraction while positions stay on one side: from 0 on, or up to -1. Between
    -1 and 0 it falls.
  */
  lemma PercentileMonotone(values: seq<real>, f: real, g: real)
    requires f <= g && Percentile(values, f).Value? && Percentile(values, g).Value?
    ensures 0.0 <= f || Position(|values|, g) <= -1.0 ==> Percentile(values, f).value <= Percentile(values, g).value
    ensures -1.0 <= Position(|values|, f) && g <= 0.0 ==> Percentile(values, f).value >= Percentile(values, g).value
  {
    hide Sort, Interpolate;
    var sorted, p, q, n := Sort(values), Position(|values|, f), Position(|values|, g), |values| as real;
    PercentileDefined(values, f);
    PercentileDefined(values, g);
    PositionMonotone(|values|, f, g);
    PositionLandmarks(|values|);
    if 0.0 <= f {
      PositionMonotone(|values|, 0.0, f);
      hide Position;
      InterpolateMonotone(sorted, p, q);
    } else if q <= -1.0 {
      hide Position;
      InterpolateWraps(sorted, p);
      InterpolateWraps(sorted, q);
      InterpolateMonotone(sorted, p + n, q + n);
    }
    if -1.0 <= p && g <= 0.0 {
      PositionMonotone(|values|, g, 0.0);
      hide Position;
      InterpolateFalls(sorted, p, q);
    }
  }

  // ---------------------------------------------------------------------------------------------
  // For which fractions a percentile never falls
  // ---------------------------------------------------------------------------------------------

  predicate InRange(n: nat, position: real) {
    -(n as real) <= position <= n as real - 1.0
  }

  predicate Rises(s: seq<real>, p: real, q: real)
    requires s != [] && InRange(|s|, p) && InRange(|s|, q)
  {
    InterpolateExactly(s, p);
    InterpolateExactly(s, q);
    Interpolate(s, p).value <= Interpolate(s, q).value
  }

  /**
    Both on one side of the seam between positions -1 and 0; or the same; or on different sides, or one of
    them inside the seam, with the second far enough to the right.
  */
  predicate Grows(n: nat, p: real, q: real) {
    || 0.0 <= p || q <= -1.0 || p == q
    || (p <= -1.0 && 0.0 <= q && p + n as real <= q)
    || (p <= -1.0 && -1.0 < q < 0.0 && p + n as real <= -q)
    || (-1.0 < p < 0.0 && 0.0 <= q && (n - 2) as real - p <= q)
  }

  /** On the first segment the straight line to the last element is above. */
  lemma FirstSegment(s: seq<real>, t: real)
    requires Ascending(s) && |s| >= 2 && 0.0 <= t < 1.0
    ensures Interpolate(s, t).Some? && Interpolate(s, t).value <= Blend(s[0], s[|s| - 1], t)
  {
    NeighboursOrdered(s, 1, |s| - 1);
    BlendLandmarks(s[0], s[|s| - 1]);
    BlendLandmarks(s[0], s[1]);
    SlopeGrows(s[0], s[1], s[|s| - 1], t);
    hide Blend;
    if t > 0.0 { assert t.Floor == 0 && Ceiling(t) == 1; }
  }

  lemma SlopeGrows(a: real, b: real, c: real, t: real)
    requires b <= c && t >= 0.0
    ensures Blend(a, b, t) <= Blend(a, c, t)
  {
    SlopeMonotone(t, b - a, c - a);
  }

  /** On the last segment the straight line from the first element is below. */
  lemma LastSegment(s: seq<real>, t: real)
    requires Ascending(s) && |s| >= 2 && 0.0 < t < 1.0
    ensures var position := (|s| - 2) as real + t;
      Interpolate(s, position).Some? && Blend(s[0], s[|s| - 1], t) <= Interpolate(s, position).value
  {
    var n := |s|;
    NeighboursOrdered(s, 0, n - 2);
    StartGrows(s[0], s[n - 2], s[n - 1], t);
    hide Blend;
    var position := (n - 2) as real + t;
    assert position.Floor == n - 2 && Ceiling(position) == n - 1 && position - (n - 2) as real == t;
  }

  lemma StartGrows(a: real, b: real, c: real, t: real)
    requires a <= b && t <= 1.0
    ensures Blend(a, c, t) <= Blend(b, c, t)
  {
    SlopeMonotone(1.0 - t, a, b);
    assert Blend(a, c, t) == c * t + (1.0 - t) * a && Blend(b, c, t) == c * t + (1.0 - t) * b;
  }

  /** Inside the seam the value is on the straight line from the first to the last element, walked backwards. */
  lemma SeamValue(s: seq<real>, p: real)
    requires s != [] && -1.0 < p < 0.0
    ensures Interpolate(s, p) == Some(Blend(s[0], s[|s| - 1], -p))
  {
    InterpolateSeam(s, p);
    Backwards(s[0], s[|s| - 1], p);
    hide Interpolate, Blend;
  }

  lemma Backwards(a: real, b: real, p: real)
    ensures Blend(b, a, p + 1.0) == Blend(a, b, -p)
  {
  }

  lemma GrowsIsEnough(s: seq<real>, p: real, q: real)
    requires |s| >= 2 && Ascending(s) && p <= q && InRange(|s|, p) && InRange(|s|, q) && Grows(|s|, p, q)
    ensures Rises(s, p, q)
  {
    hide Interpolate, Blend;
    var n := |s| as real;
    InterpolateExactly(s, p);
    InterpolateExactly(s, q);
    if 0.0 <= p {
      InterpolateMonotone(s, p, q);
    } else if q <= -1.0 {
      InterpolateWraps(s, p);
      InterpolateWraps(s, q);
      InterpolateMonotone(s, p + n, q + n);
    } else if p <= -1.0 {
      InterpolateWraps(s, p);
      if 0.0 <= q {
        InterpolateMonotone(s, p + n, q);
      } else {
        InterpolateMonotone(s, p + n, -q);
        FirstSegment(s, -q);
        SeamValue(s, q);
      }
    } else if p != q {
      LastSegment(s, -p);
      SeamValue(s, p);
      InterpolateMonotone(s, n - 2.0 - p, q);
    }
  }

  /** The positions themselves. */
  function Identity(n: nat): (s: seq<real>)
    ensures |s| == n
  {
    seq(n, i requires 0 <= i < n => i as real)
  }

  /** Zero before position `step` and one from there on. */
  function StepAt(n: nat, step: nat): (s: seq<real>)
    ensures |s| == n && Ascending(s)
  {
    seq(n, i requires 0 <= i < n => if i < step then 0.0 else 1.0)
  }

  lemma IdentityValue(n: nat, position: real)
    requires n > 0 && 0.0 <= position <= (n - 1) as real
    ensures Interpolate(Identity(n), position) == Some(position) && Ascending(Identity(n))
  {
    var lower := position.Floor;
    UnitSlope(lower as real, position);
    hide Blend;
    if position != lower as real { assert Ceiling(position) == lower + 1; }
  }

  lemma UnitSlope(a: real, x: real)
    ensures Blend(a, a + 1.0, x - a) == x
  {
  }

  lemma StepValue(n: nat, step: nat, position: real)
    requires 0 < step < n && 0.0 <= position <= (n - 1) as real
    ensures Interpolate(StepAt(n, step), position)
         == Some(if position <= (step - 1) as real then 0.0
                 else if position >= step as real then 1.0 else position - (step - 1) as real)
  {
    var lower := position.Floor;
    UnitSlope(0.0, position - lower as real);
    FlatSlope(position - lower as real);
    hide Blend;
    if position != lower as real { assert Ceiling(position) == lower + 1; }
  }

  lemma FlatSlope(t: real)
    ensures Blend(0.0, 0.0, t) == 0.0 && Blend(1.0, 1.0, t) == 1.0
  {
  }

  lemma StepSeam(n: nat, step: nat, p: real)
    requires 0 < step < n && -1.0 < p < 0.0
    ensures Interpolate(StepAt(n, step), p) == Some(-p)
  {
    SeamValue(StepAt(n, step), p);
    UnitSlope(0.0, -p);
    hide Interpolate, Blend;
  }

  /** Where the condition fails some list falls: the positions themselves, or a step at one of the ends. */
  lemma FallsSomewhere(n: nat, p: real, q: real) returns (s: seq<real>)
    requires n >= 2 && p <= q && InRange(n, p) && InRange(n, q) && !Grows(n, p, q)
    ensures |s| == n && Ascending(s) && !Rises(s, p, q)
  {
    hide Interpolate;
    if p <= -1.0 && 0.0 <= q {
      s := Identity(n);
      InterpolateWraps(s, p);
      IdentityValue(n, p + n as real);
      IdentityValue(n, q);
    } else if p <= -1.0 {
      s := StepAt(n, 1);
      InterpolateWraps(s, p);
      StepValue(n, 1, p + n as real);
      StepSeam(n, 1, q);
    } else if 0.0 <= q {
      s := StepAt(n, n - 1);
      StepSeam(n, n - 1, p);
      StepValue(n, n - 1, q);
    } else {
      s := StepAt(n, 1);
      StepSeam(n, 1, p);
      StepSeam(n, 1, q);
    }
  }

  lemma {:induction false} SortIdle(xs: seq<real>)
    requires Ascending(xs)
    ensures Sort(xs) == xs
  {
    if |xs| > 0 {
      assert Ascending(xs[1..]);
      SortIdle(xs[1..]);
      if |xs| > 1 { assert xs[0] <= xs[1] == xs[1..][0]; }
      assert xs == [xs[0]] + xs[1..];
    }
  }

  /** No list of n values has a smaller percentile at the larger fraction. */
  ghost predicate PercentileNeverFalls(n: nat, f: real, g: real) {
    forall values: seq<real> :: |values| == n ==> PercentileRises(values, f, g)
  }

  predicate PercentileRises(values: seq<real>, f: real, g: real) {
    var low, high := Percentile(values, f), Percentile(values, g);
    low.Value? && high.Value? && low.value <= high.value
  }

  lemma PercentileIsInterpolated(values: seq<real>, f: real, g: real)
    requires values != [] && InRange(|values|, Position(|values|, f)) && InRange(|values|, Position(|values|, g))
    ensures PercentileRises(values, f, g) <==> Rises(Sort(values), Position(|values|, f), Position(|values|, g))
  {
    hide Sort, Interpolate, Position;
    InterpolateExactly(Sort(values), Position(|values|, f));
    InterpolateExactly(Sort(values), Position(|values|, g));
  }

  /** For a given number of values, a percentile never falls between two fractions exactly where `Grows` says so. */
  lemma PercentileGrowsExactly(n: nat, f: real, g: real)
    requires n > 0 && f <= g && InRange(n, Position(n, f)) && InRange(n, Position(n, g))
    ensures PercentileNeverFalls(n, f, g) <==> Grows(n, Position(n, f), Position(n, g))
  {
    var p, q := Position(n, f), Position(n, g);
    PositionMonotone(n, f, g);
    if n == 1 {
      OnePosition(f);
      OnePosition(g);
    }
    hide Rises, PercentileRises, Sort, Position;
    if Grows(n, p, q) {
      forall values: seq<real> | |values| == n ensures PercentileRises(values, f, g) {
        PercentileIsInterpolated(values, f, g);
        if n == 1 { SameRises(Sort(values), p); } else { GrowsIsEnough(Sort(values), p, q); }
      }
    } else {
      var s := FallsSomewhere(n, p, q);
      SortIdle(s);
      PercentileIsInterpolated(s, f, g);
    }
  }

  lemma OnePosition(f: real)
    ensures Position(1, f) == 0.0
  {
  }

  lemma SameRises(s: seq<real>, p: real)
    requires s != [] && InRange(|s|, p)
    ensures Rises(s, p, p)
  {
  }

  lemma SeamRises(s: seq<real>, p: real, q: real)
    requires s != [] && Ascending(s) && -1.0 < p < q < 0.0
    ensures InRange(|s|, p) && InRange(|s|, q)
    ensures Rises(s, p, q) <==> s[0] == s[|s| - 1]
  {
    hide Interpolate, Blend;
    SeamValue(s, p);
    SeamValue(s, q);
    NeighboursOrdered(s, 0, |s| - 1);
    SteeperFalls(s[0], s[|s| - 1], -q, -p);
  }

  /** Inside the seam a percentile falls strictly unless all values are equal. */
  lemma SeamFallsExactly(values: seq<real>, f: real, g: real)
    requires values != [] && f < g && -1.0 < Position(|values|, f) < Position(|values|, g) < 0.0
    ensures var sorted := Sort(values); PercentileRises(values, f, g) <==> sorted[0] == sorted[|sorted| - 1]
  {
    hide Sort, Position, Rises, PercentileRises;
    SeamRises(Sort(values), Position(|values|, f), Position(|values|, g));
    PercentileIsInterpolated(values, f, g);
  }

  lemma SteeperFalls(a: real, b: real, s: real, t: real)
    requires a <= b && s < t
    ensures Blend(a, b, t) <= Blend(a, b, s) <==> a == b
  {
    var rise, run := b - a, t - s;
    assert Blend(a, b, t) - Blend(a, b, s) == rise * run;
    if a < b { PositiveRise(rise, run); }
  }

  lemma PositiveRise(rise: real, run: real)
    requires rise > 0.0 && run > 0.0
    ensures rise * run > 0.0
  {
  }

  lemma AtMember(values: seq<real>, index: int, low: real, high: real)
    requires At(Sort(values), index).Some?
    requires forall i :: 0 <= i < |values| ==> low <= values[i] <= high
    ensures low <= At(Sort(values), index).value <= high
  {
    hide Sort;
    var i := SortMember(values, if index < 0 then |values| + index else index);
  }

  /** A percentile lies within any bounds of the values, for every fraction that has one. */
  lemma PercentileBounded(values: seq<real>, fraction: real, low: real, high: real)
    requires Percentile(values, fraction).Value?
    requires forall i :: 0 <= i < |values| ==> low <= values[i] <= high
    ensures low <= Percentile(values, fraction).value <= high
  {
    hide Sort, At;
    var position := Position(|values|, fraction);
    AtMember(values, position.Floor, low, high);
    AtMember(values, Ceiling(position), low, high);
    BetweenNeighbours(Sort(values), position, low, high);
  }

  lemma InterpolateLandmarks(sorted: seq<real>, k: nat, position: real)
    requires k < |sorted|
    requires position == k as real || (position == k as real + 0.5 && k + 1 < |sorted|)
    ensures Interpolate(sorted, position)
         == Some(if position == k as real then sorted[k] else (sorted[k] + sorted[k + 1]) / 2.0)
  {
    if position != k as real {
      assert position.Floor == k && Ceiling(position) == k + 1;
      assert position - k as real == 0.5;
      BlendLandmarks(sorted[k], sorted[k + 1]);
    }
  }

  /** The extreme fractions give the extreme values. */
  lemma PercentileExtremes(values: seq<real>)
    requires values != []
    ensures Percentile(values, 0.0) == Value(Sort(values)[0])
    ensures Percentile(values, 1.0) == Value(Sort(values)[|values| - 1])
  {
    var n := |values|;
    PositionLandmarks(n);
    hide Sort, Interpolate, Position;
    InterpolateLandmarks(Sort(values), 0, Position(n, 0.0));
    InterpolateLandmarks(Sort(values), n - 1, Position(n, 1.0));
  }

  function Median(sorted: seq<real>): real
    requires sorted != []
  {
    var m := (|sorted| - 1) / 2;
    if |sorted| % 2 == 1 then sorted[m] else (sorted[m] + sorted[m + 1]) / 2.0
  }

  lemma InterpolateMedian(sorted: seq<real>, position: real)
    requires sorted != []
    requires position == ((|sorted| - 1) / 2) as real + if |sorted| % 2 == 1 then 0.0 else 0.5
    ensures Interpolate(sorted, position) == Some(Median(sorted))
  {
    hide Interpolate;
    InterpolateLandmarks(sorted, (|sorted| - 1) / 2, position);
  }

  /** The fraction one half gives the median. */
  lemma PercentileMedian(values: seq<real>)
    requires values != []
    ensures Percentile(values, 0.5) == Value(Median(Sort(values)))
  {
    var n := |values|;
    PositionLandmarks(n);
    hide Sort, Interpolate, Position, Median;
    InterpolateMedian(Sort(values), Position(n, 0.5));
  }

  // ---------------------------------------------------------------------------------------------
  // Bootstrap
  // ---------------------------------------------------------------------------------------------

  /** Task by task, as far as both series reach. */
  function Differences(full: seq<real>, ablation: seq<real>): (d: seq<real>)
    ensures |d| == if |full| <= |ablation| then |full| else |ablation|
  {
    var size := if |full| <= |ablation| then |full| else |ablation|;
    seq(size, i requires 0 <= i < size => full[i] - ablation[i])
  }

  /** What the random generator picks: as many indexes as there are tasks, each of a task. */
  ghost predicate ValidPick(pick: seq<nat>, size: nat) {
    |pick| == size && forall k :: 0 <= k < |pick| ==> pick[k] < size
  }

  predicate Within(pick: seq<nat>, size: nat) {
    forall k :: 0 <= k < |pick| ==> pick[k] < size
  }

  predicate AllWithin(picks: seq<seq<nat>>, size: nat) {
    forall k :: 0 <= k < |picks| ==> picks[k] != [] && Within(picks[k], size)
  }

  /** The differences at the picked tasks. */
  function Resample(differences: seq<real>, pick: seq<nat>): (sample: seq<real>)
    requires Within(pick, |differences|)
    ensures |sample| == |pick|
  {
    seq(|pick|, k requires 0 <= k < |pick| => differences[pick[k]])
  }

  datatype Interval = Interval(low: real, high: real) | NotANumber | StatisticsError | OutOfRange

  function ResampledMeans(differences: seq<real>, picks: seq<seq<nat>>): (means: seq<real>)
    requires AllWithin(picks, |differences|)
    ensures |means| == |picks|
  {
    seq(|picks|, k requires 0 <= k < |picks| && picks[k] != [] && Within(picks[k], |differences|) =>
      Mean(Resample(differences, picks[k])))
  }

  /** `bootstrap_ci`: one mean of resampled differences per pick, then two percentiles of the means. */
  method BootstrapInterval(full: seq<real>, ablation: seq<real>, picks: seq<seq<nat>>) returns (result: Interval)
    requires forall k :: 0 <= k < |picks| ==> ValidPick(picks[k], |full|)
    ensures result.NotANumber? <==> picks == []
    ensures result.StatisticsError? <==> picks != [] && full == []
    ensures result.OutOfRange?
       <==> exists k :: 0 <= k < |picks| && exists i :: 0 <= i < |picks[k]| && picks[k][i] >= |ablation|
    ensures result.Interval? ==>
      var differences := Differences(full, ablation);
      && AllWithin(picks, |differences|)
      && Value(result.low) == Percentile(ResampledMeans(differences, picks), 0.025)
      && Value(result.high) == Percentile(ResampledMeans(differences, picks), 0.975)
  {
    if picks == [] { return NotANumber; }
    if full == [] {
      assert picks[0] == [];
      return StatisticsError;
    }
    ghost var all := Differences(full, ablation);
    var differences: seq<real> := [];
    for n := 0 to |picks|
      invariant AllWithin(picks[..n], |all|) && differences == ResampledMeans(all, picks[..n])
    {
      var pick := picks[n];
      assert ValidPick(pick, |full|);
      var sample: seq<real> := [];
      for k := 0 to |pick|
        invariant Within(pick[..k], |all|) && sample == Resample(all, pick[..k])
      {
        if pick[k] >= |ablation| {
          assert picks[n][k] >= |ablation|;
          return OutOfRange;
        }
        sample := sample + [full[pick[k]] - ablation[pick[k]]];
        assert pick[..k + 1] == pick[..k] + [pick[k]];
      }
      assert pick[..|pick|] == pick;
      differences := differences + [Mean(sample)];
      assert picks[..n + 1] == picks[..n] + [pick];
    }
    assert picks[..|picks|] == picks;
    WithinAblation(picks, |all|, |ablation|);
    PercentileDefined(differences, 0.025);
    PercentileDefined(differences, 0.975);
    hide Percentile;
    var low, high := Percentile(differences, 0.025), Percentile(differences, 0.975);
    result := Interval(low.value, high.value);
  }

  lemma WithinAblation(picks: seq<seq<nat>>, size: nat, more: nat)
    requires AllWithin(picks, size) && size <= more
    ensures !(exists k :: 0 <= k < |picks| && exists i :: 0 <= i < |picks[k]| && picks[k][i] >= more)
  {
  }

  /** Whatever is picked, the interval is ordered and stays within any bounds of the differences. */
  lemma BootstrapBounded(differences: seq<real>, picks: seq<seq<nat>>, low: real, high: real)
    requires picks != [] && AllWithin(picks, |differences|)
    requires forall i :: 0 <= i < |differences| ==> low <= differences[i] <= high
    ensures var means := ResampledMeans(differences, picks);
      && Percentile(means, 0.025).Value? && Percentile(means, 0.975).Value?
      && low <= Percentile(means, 0.025).value <= Percentile(means, 0.975).value <= high
  {
    hide Percentile;
    var means := ResampledMeans(differences, picks);
    forall k | 0 <= k < |means| ensures low <= means[k] <= high {
      MeanBounded(Resample(differences, picks[k]), low, high);
    }
    PercentileDefined(means, 0.025);
    PercentileDefined(means, 0.975);
    PercentileMonotone(means, 0.025, 0.975);
    PercentileBounded(means, 0.025, low, high);
    PercentileBounded(means, 0.975, low, high);
  }

  /** When every task differs by d, the interval is the single point d. */
  lemma BootstrapCollapses(differences: seq<real>, picks: seq<seq<nat>>, d: real)
    requires picks != [] && AllWithin(picks, |differences|)
    requires forall i :: 0 <= i < |differences| ==> differences[i] == d
    ensures var means := ResampledMeans(differences, picks);
      Percentile(means, 0.025) == Value(d) == Percentile(means, 0.975)
  {
    BootstrapBounded(differences, picks, d, d);
  }

  // ---------------------------------------------------------------------------------------------
  // The comparison table
  // ---------------------------------------------------------------------------------------------

  datatype Record = Record(task: string, variant: string, completed: bool, score: real)
  datatype Pair = Pair(full: Record, ablation: Record)

  /** The last record of a task and variant, which is what the nested dictionaries keep. */
  function LastRecord(records: seq<Record>, task: string, variant: string): Option<Record> {
    if records == [] then None
    else
      var last := records[|records| - 1];
      if last.task == task && last.variant == variant then Some(last)
      else LastRecord(records[..|records| - 1], task, variant)
  }

  /** The tasks in order of first appearance. */
  function Tasks(records: seq<Record>): (tasks: seq<string>)
    ensures forall r <- records :: r.task in tasks
  {
    if records == [] then []
    else
      var n := |records| - 1;
      var tasks := Tasks(records[..n]);
      assert forall r <- records :: r == records[n] || r in records[..n];
      if records[n].task in tasks then tasks else tasks + [records[n].task]
  }

  function PairsAmong(records: seq<Record>, tasks: seq<string>, ablation: string): seq<Pair> {
    if tasks == [] then []
    else
      var n := |tasks| - 1;
      var full, other := LastRecord(records, tasks[n], "Full"), LastRecord(records, tasks[n], ablation);
      PairsAmong(records, tasks[..n], ablation)
      + if full.Some? && other.Some? then [Pair(full.value, other.value)] else []
  }

  function Lookup<K, V>(m: map<K, V>, k: K): Option<V> {
    if k in m then Some(m[k]) else None
  }

  type Groups = map<string, map<string, Record>>

  function Find(grouped: Groups, task: string, variant: string): Option<Record> {
    if task in grouped then Lookup(grouped[task], variant) else None
  }

  /** The grouping loop of `paired_statistics`: the last record of a task and variant wins. */
  method Group(records: seq<Record>) returns (order: seq<string>, grouped: Groups)
    ensures order == Tasks(records)
    ensures forall t :: t in grouped <==> t in order
    ensures forall t, v :: Find(grouped, t, v) == LastRecord(records, t, v)
  {
    order, grouped := [], map[];
    for i := 0 to |records|
      invariant order == Tasks(records[..i])
      invariant forall t :: t in grouped <==> t in order
      invariant forall t, v :: Find(grouped, t, v) == LastRecord(records[..i], t, v)
    {
      var row := records[i];
      assert records[..i + 1][..i] == records[..i];
      if row.task !in grouped {
        grouped := grouped[row.task := map[]];
        order := order + [row.task];
      }
      grouped := grouped[row.task := grouped[row.task][row.variant := row]];
    }
    assert records[..|records|] == records;
  }

  /** Grouping followed by the pairing comprehension. */
  method PairUp(records: seq<Record>, ablation: string) returns (pairs: seq<Pair>)
    ensures pairs == PairsAmong(records, Tasks(records), ablation)
  {
    hide Tasks, LastRecord;
    var order, grouped := Group(records);
    pairs := [];
    for i := 0 to |order|
      invariant pairs == PairsAmong(records, order[..i], ablation)
    {
      assert order[..i + 1][..i] == order[..i];
      assert order[i] in grouped;
      var variants := grouped[order[i]];
      var full, other := Lookup(variants, "Full"), Lookup(variants, ablation);
      assert full == Find(grouped, order[i], "Full") && other == Find(grouped, order[i], ablation);
      if full.Some? && other.Some? {
        pairs := pairs + [Pair(full.value, other.value)];
      }
    }
    assert order[..|order|] == order;
  }

  datatype Outcome = Outcome(full: bool, ablation: bool)

  /** How many pairs have exactly this outcome. */
  function Outcomes(pairs: seq<Pair>, outcome: Outcome): nat {
    if pairs == [] then 0
    else
      var first := Outcome(pairs[0].full.completed, pairs[0].ablation.completed);
      (if first == outcome then 1 else 0) + Outcomes(pairs[1..], outcome)
  }

  function AsReal(completed: bool): real {
    if completed then 1.0 else 0.0
  }

  function Completion(pairs: seq<Pair>, full: bool): (rates: seq<real>)
    ensures |rates| == |pairs|
  {
    seq(|pairs|, i requires 0 <= i < |pairs| =>
      AsReal(if full then pairs[i].full.completed else pairs[i].ablation.completed))
  }

  lemma {:induction false} OutcomesPartition(pairs: seq<Pair>)
    ensures Outcomes(pairs, Outcome(true, true)) + Outcomes(pairs, Outcome(true, false))
          + Outcomes(pairs, Outcome(false, true)) + Outcomes(pairs, Outcome(false, false)) == |pairs|
    ensures Sum(Completion(pairs, true)) - Sum(Completion(pairs, false))
         == (Outcomes(pairs, Outcome(true, false)) - Outcomes(pairs, Outcome(false, true))) as real
  {
    if pairs != [] {
      OutcomesPartition(pairs[1..]);
      assert Completion(pairs, true)[1..] == Completion(pairs[1..], true);
      assert Completion(pairs, false)[1..] == Completion(pairs[1..], false);
    }
  }

  lemma DifferenceOfQuotients(x: real, y: real, n: real)
    requires n > 0.0
    ensures x / n - y / n == (x - y) / n
    ensures x / n == 0.0 <==> x == 0.0
  {
  }

  /** The completion difference is the discordant difference per task; when it is zero the test is certain. */
  lemma CompletionDifference(pairs: seq<Pair>)
    requires pairs != []
    ensures var b: int, c: int := Outcomes(pairs, Outcome(true, false)), Outcomes(pairs, Outcome(false, true));
      && Mean(Completion(pairs, true)) - Mean(Completion(pairs, false)) == (b - c) as real / |pairs| as real
      && (Mean(Completion(pairs, true)) == Mean(Completion(pairs, false)) ==> McNemar.McNemarExact(b, c) == 1.0)
  {
    var b: int, c: int := Outcomes(pairs, Outcome(true, false)), Outcomes(pairs, Outcome(false, true));
    OutcomesPartition(pairs);
    hide Sum, Outcomes, Completion;
    DifferenceOfQuotients(Sum(Completion(pairs, true)), Sum(Completion(pairs, false)), |pairs| as real);
    DifferenceOfQuotients((b - c) as real, 0.0, |pairs| as real);
    McNemar.PValueRange(b, c);
  }
}
