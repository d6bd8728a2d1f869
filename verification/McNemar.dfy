/**
  The exact McNemar test of benchmark/arc_bench/paper_add_analysis.py, with exact rationals for floats.

  `McNemarExact` doubles a binomial tail and clamps it at one. The reference it is proved against
  knows no binomials: it counts, among all sequences of fair coin tosses, the ones at least as
  lopsided as the observed discordant pairs.
*/
module McNemar {
  import opened Reals

  /** math.comb */
  function Comb(n: nat, k: nat): nat {
    if k == 0 then 1
    else if n == 0 then 0
    else Comb(n - 1, k - 1) + Comb(n - 1, k)
  }

  /** Comb(n, 0) + ... + Comb(n, count - 1) */
  function CombSum(n: nat, count: nat): nat {
    if count == 0 then 0 else CombSum(n, count - 1) + Comb(n, count - 1)
  }

  function Pow2(n: nat): (p: nat)
    ensures p > 0
  {
    if n == 0 then 1 else 2 * Pow2(n - 1)
  }

  function Min(b: nat, c: nat): nat {
    if b < c then b else c
  }

  function Gap(b: nat, c: nat): nat {
    if b < c then c - b else b - c
  }

  /** The doubled tail before clamping; an empty table counts as certain. */
  function DoubledTail(b: nat, c: nat): real {
    if b + c == 0 then 1.0
    else (2 * CombSum(b + c, Min(b, c) + 1)) as real / Pow2(b + c) as real
  }

  function McNemarExact(b: nat, c: nat): real {
    if b + c == 0 then 1.0
    else if DoubledTail(b, c) < 1.0 then DoubledTail(b, c)
    else 1.0
  }

  // ---------------------------------------------------------------------------------------------
  // Binomials
  // ---------------------------------------------------------------------------------------------

  lemma {:induction false} CombBeyond(n: nat, k: nat)
    requires k > n
    ensures Comb(n, k) == 0
  {
    if n > 0 {
      CombBeyond(n - 1, k - 1);
      CombBeyond(n - 1, k);
    }
  }

  lemma {:induction false} CombPositive(n: nat, k: nat)
    requires k <= n
    ensures Comb(n, k) > 0
  {
    if k > 0 { CombPositive(n - 1, k - 1); }
  }

  lemma {:induction false} CombSymmetric(n: nat, k: nat)
    requires k <= n
    ensures Comb(n, k) == Comb(n, n - k)
  {
    if n > 0 {
      if 0 < k < n {
        CombSymmetric(n - 1, k - 1);
        CombSymmetric(n - 1, k);
      } else {
        CombSymmetric(n - 1, 0);
        CombBeyond(n - 1, n);
      }
    }
  }

  /** The first j binomials and the last ones, read backwards, make up the whole row. */
  lemma {:induction false} CombSumSplits(n: nat, j: nat)
    requires j <= n + 1
    ensures CombSum(n, n + 1) == CombSum(n, j) + CombSum(n, n + 1 - j)
  {
    if j > 0 {
      CombSumSplits(n, j - 1);
      CombSymmetric(n, j - 1);
    }
  }

  lemma {:induction false} CombSumMonotone(n: nat, i: nat, j: nat)
    requires i <= j
    ensures CombSum(n, i) <= CombSum(n, j)
    ensures i < j && i <= n ==> CombSum(n, i) < CombSum(n, j)
  {
    if i < j {
      CombSumMonotone(n, i, j - 1);
      if i == j - 1 && i <= n { CombPositive(n, i); }
    }
  }

  // ---------------------------------------------------------------------------------------------
  // Coin tosses
  // ---------------------------------------------------------------------------------------------

  predicate Lopsided(lead: int, gap: nat) {
    lead >= gap || -lead >= gap
  }

  /** How many of the 2^n continuations by n tosses end with heads and tails at least `gap` apart. */
  function ExtremeTosses(n: nat, lead: int, gap: nat): nat {
    if n == 0 then if Lopsided(lead, gap) then 1 else 0
    else ExtremeTosses(n - 1, lead + 1, gap) + ExtremeTosses(n - 1, lead - 1, gap)
  }

  /** The continuations with fewer than `heads` heads, grouped by their number of heads. */
  function ByHeads(n: nat, lead: int, gap: nat, heads: nat): nat {
    if heads == 0 then 0
    else
      ByHeads(n, lead, gap, heads - 1)
      + if Lopsided(lead + 2 * (heads - 1) - n, gap) then Comb(n, heads - 1) else 0
  }

  lemma {:induction false} ByHeadsPascal(n: nat, lead: int, gap: nat, heads: nat)
    requires n > 0
    ensures ByHeads(n, lead, gap, heads + 1)
         == ByHeads(n - 1, lead - 1, gap, heads + 1) + ByHeads(n - 1, lead + 1, gap, heads)
  {
    if heads > 0 { ByHeadsPascal(n, lead, gap, heads - 1); }
  }

  lemma {:induction false} TossesByHeads(n: nat, lead: int, gap: nat)
    ensures ExtremeTosses(n, lead, gap) == ByHeads(n, lead, gap, n + 1)
  {
    if n == 0 {
      assert ByHeads(0, lead, gap, 1) == ByHeads(0, lead, gap, 0) + if Lopsided(lead, gap) then 1 else 0;
    } else {
      TossesByHeads(n - 1, lead + 1, gap);
      TossesByHeads(n - 1, lead - 1, gap);
      ByHeadsPascal(n, lead, gap, n);
      CombBeyond(n - 1, n);
    }
  }

  lemma {:induction false} AllLopsided(n: nat, heads: nat)
    ensures ByHeads(n, 0, 0, heads) == CombSum(n, heads)
  {
    if heads > 0 { AllLopsided(n, heads - 1); }
  }

  lemma {:induction false} CombSumRow(n: nat)
    ensures CombSum(n, n + 1) == Pow2(n) == ExtremeTosses(n, 0, 0)
  {
    TossesByHeads(n, 0, 0);
    AllLopsided(n, n + 1);
    TossesAll(n, 0);
  }

  lemma {:induction false} TossesAll(n: nat, lead: int)
    ensures ExtremeTosses(n, lead, 0) == Pow2(n)
  {
    if n > 0 {
      TossesAll(n - 1, lead + 1);
      TossesAll(n - 1, lead - 1);
    }
  }

  /** At least max - min apart means at most min heads or at least max heads. */
  lemma {:induction false} TailsByHeads(small: nat, large: nat, heads: nat)
    requires small < large && heads <= small + large + 1
    ensures ByHeads(small + large, 0, large - small, heads)
         == CombSum(small + large, Min(heads, small + 1))
          + (if heads <= large then 0 else CombSum(small + large, heads) - CombSum(small + large, large))
  {
    if heads > 0 { TailsByHeads(small, large, heads - 1); }
  }

  // ---------------------------------------------------------------------------------------------
  // The test
  // ---------------------------------------------------------------------------------------------

  /** The doubled tail misses, meets or passes the whole row by the gap between the counts. */
  lemma DoubledTailVersusRow(b: nat, c: nat)
    ensures Gap(b, c) == 0 ==> 2 * CombSum(b + c, Min(b, c) + 1) > Pow2(b + c)
    ensures Gap(b, c) == 1 ==> 2 * CombSum(b + c, Min(b, c) + 1) == Pow2(b + c)
    ensures Gap(b, c) >= 2 ==> 2 * CombSum(b + c, Min(b, c) + 1) < Pow2(b + c)
  {
    var n, small := b + c, Min(b, c);
    CombSumRow(n);
    CombSumSplits(n, small + 1);
    CombSumMonotone(n, small, small + 1);
    if Gap(b, c) >= 2 { CombSumMonotone(n, small + 1, n - small); }
  }

  lemma QuotientOrder(x: real, y: real, scale: real)
    requires scale > 0.0
    ensures x / scale < y / scale <==> x < y
    ensures scale / scale == 1.0 && 0.0 / scale == 0.0
  {
    var p, q := x / scale, y / scale;
    assert p * scale == x && q * scale == y;
    ScaleOrder(p, q, scale);
  }

  lemma RatioOrder(x: nat, y: nat, scale: nat)
    requires scale > 0
    ensures x as real / scale as real < y as real / scale as real <==> x < y
    ensures x as real / scale as real < 1.0 <==> x < scale
    ensures x as real / scale as real == 1.0 <==> x == scale
    ensures x as real / scale as real > 0.0 <==> x > 0
  {
    QuotientOrder(x as real, y as real, scale as real);
    QuotientOrder(x as real, scale as real, scale as real);
    QuotientOrder(scale as real, x as real, scale as real);
    QuotientOrder(0.0, x as real, scale as real);
  }

  /** The value is symmetric, a probability, and one exactly when the counts are at most one apart. */
  lemma PValueRange(b: nat, c: nat)
    ensures McNemarExact(b, c) == McNemarExact(c, b)
    ensures 0.0 < McNemarExact(b, c) <= 1.0
    ensures McNemarExact(b, c) == 1.0 <==> Gap(b, c) <= 1
  {
    if b + c > 0 {
      var tail := 2 * CombSum(b + c, Min(b, c) + 1);
      DoubledTailVersusRow(b, c);
      RatioOrder(tail, tail, Pow2(b + c));
      CombSumMonotone(b + c, 0, Min(b, c) + 1);
    }
  }

  /** The clamp changes the value exactly for equal positive counts. */
  lemma ClampExactly(b: nat, c: nat)
    ensures McNemarExact(b, c) != DoubledTail(b, c) <==> b == c && b > 0
  {
    if b + c > 0 {
      var tail := 2 * CombSum(b + c, Min(b, c) + 1);
      DoubledTailVersusRow(b, c);
      RatioOrder(tail, tail, Pow2(b + c));
    }
  }

  /** At a fixed number of discordant pairs, a wider gap means a strictly smaller value. */
  lemma PValueDecreases(b: nat, c: nat, b': nat, c': nat)
    requires b + c == b' + c' && Gap(b, c) < Gap(b', c') && Gap(b', c') > 1
    ensures McNemarExact(b', c') < McNemarExact(b, c)
  {
    var n := b + c;
    var tail, tail' := 2 * CombSum(n, Min(b, c) + 1), 2 * CombSum(n, Min(b', c') + 1);
    CombSumMonotone(n, Min(b', c') + 1, Min(b, c) + 1);
    DoubledTailVersusRow(b', c');
    RatioOrder(tail', tail, Pow2(n));
  }

  /** The lopsided tosses are the two tails, or all tosses when the counts are equal. */
  lemma TossesAreTails(b: nat, c: nat)
    ensures ExtremeTosses(b + c, 0, Gap(b, c))
         == if Gap(b, c) == 0 then Pow2(b + c) else 2 * CombSum(b + c, Min(b, c) + 1)
  {
    var n, small, large := b + c, Min(b, c), b + c - Min(b, c);
    if small < large {
      TossesByHeads(n, 0, large - small);
      TailsByHeads(small, large, n + 1);
      CombSumSplits(n, large);
    } else {
      CombSumRow(n);
    }
  }

  /** The value is the chance that fair tosses come out at least as lopsided as the table. */
  lemma PValueIsTossProbability(b: nat, c: nat)
    ensures McNemarExact(b, c) == ExtremeTosses(b + c, 0, Gap(b, c)) as real / Pow2(b + c) as real
  {
    var n := b + c;
    DoubledTailVersusRow(b, c);
    TossesAreTails(b, c);
    hide CombSum, Pow2, ExtremeTosses;
    RatioOrder(2 * CombSum(n, Min(b, c) + 1), Pow2(n), Pow2(n));
  }
}
