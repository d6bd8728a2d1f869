/** Real arithmetic that several modules share, and Python's `sum` and `statistics.mean`. */
module Reals {
  /** math.ceil */
  function Ceiling(x: real): (c: int)
    ensures x <= c as real < x + 1.0
  {
    -((-x).Floor)
  }

  /** A product, as a name to reason about without multiplying. */
  function Times(x: real, y: real): real {
    x * y
  }

  function Sum(xs: seq<real>): real {
    if xs == [] then 0.0 else xs[0] + Sum(xs[1..])
  }

  function Mean(xs: seq<real>): real
    requires xs != []
  {
    Sum(xs) / |xs| as real
  }

  lemma PartBounds(whole: real, fraction: real, part: real)
    requires whole >= 0.0 && 0.0 <= fraction <= 1.0 && part == whole * fraction
    ensures 0.0 <= part <= whole
  {
    assert whole - part == whole * (1.0 - fraction);
  }

  lemma OneMore(x: real, n: real)
    ensures x * (n + 1.0) == x * n + x
  {
  }

  lemma ScaleOrder(x: real, y: real, n: real)
    requires n > 0.0
    ensures x * n < y * n <==> x < y
  {
  }

  /** A mean lies between the bounds of what is averaged. */
  lemma QuotientBounded(sum: real, n: real, low: real, high: real)
    requires n > 0.0 && low * n <= sum <= high * n
    ensures low <= sum / n <= high
  {
    var q := sum / n;
    assert q * n == sum;
    ScaleOrder(q, low, n);
    ScaleOrder(high, q, n);
  }

  lemma {:induction false} SumBounded(xs: seq<real>, low: real, high: real)
    requires forall i :: 0 <= i < |xs| ==> low <= xs[i] <= high
    ensures low * |xs| as real <= Sum(xs) <= high * |xs| as real
  {
    if xs != [] {
      var n := (|xs| - 1) as real;
      SumBounded(xs[1..], low, high);
      OneMore(low, n);
      OneMore(high, n);
      assert |xs| as real == n + 1.0;
    }
  }

  lemma MeanBounded(xs: seq<real>, low: real, high: real)
    requires xs != [] && forall i :: 0 <= i < |xs| ==> low <= xs[i] <= high
    ensures low <= Mean(xs) <= high
  {
    SumBounded(xs, low, high);
    hide Sum;
    QuotientBounded(Sum(xs), |xs| as real, low, high);
  }
}
