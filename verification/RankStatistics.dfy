/**
  Tie-averaged ranks and the correlation built on them, from benchmark/arc_bench/paper_add_analysis.py,
  over exact reals. The square roots of `_pearson` are parameters: any nonnegative roots will do.
*/
module RankStatistics {
  import opened Wrappers
  import opened Reals

  // ---------------------------------------------------------------------------------------------
  // Counting, which is what a rank means
  // ---------------------------------------------------------------------------------------------

  function Smaller(values: seq<real>, v: real): nat {
    if values == [] then 0 else (if values[0] < v then 1 else 0) + Smaller(values[1..], v)
  }

  function Equal(values: seq<real>, v: real): nat {
    if values == [] then 0 else (if values[0] == v then 1 else 0) + Equal(values[1..], v)
  }

  function Greater(values: seq<real>, v: real): nat {
    if values == [] then 0 else (if values[0] > v then 1 else 0) + Greater(values[1..], v)
  }

  /** The number of smaller values plus the mean position within the tie. */
  function RankOf(values: seq<real>, v: real): real {
    Smaller(values, v) as real + (Equal(values, v) + 1) as real / 2.0
  }

  function RanksOf(values: seq<real>): (ranks: seq<real>)
    ensures |ranks| == |values|
  {
    seq(|values|, i requires 0 <= i < |values| => RankOf(values, values[i]))
  }

  lemma {:induction false} CountsConcat(a: seq<real>, b: seq<real>, v: real)
    ensures Smaller(a + b, v) == Smaller(a, v) + Smaller(b, v)
    ensures Equal(a + b, v) == Equal(a, v) + Equal(b, v)
  {
    if a == [] {
      assert a + b == b;
    } else {
      assert (a + b)[1..] == a[1..] + b;
      CountsConcat(a[1..], b, v);
    }
  }

  lemma {:induction false} CountsBelow(values: seq<real>, v: real)
    requires forall i :: 0 <= i < |values| ==> values[i] < v
    ensures Smaller(values, v) == |values| && Equal(values, v) == 0
  {
    if values != [] {
      CountsBelow(values[1..], v);
    }
  }

  lemma {:induction false} CountsTied(values: seq<real>, v: real)
    requires forall i :: 0 <= i < |values| ==> values[i] == v
    ensures Smaller(values, v) == 0 && Equal(values, v) == |values|
  {
    if values != [] {
      CountsTied(values[1..], v);
    }
  }

  lemma {:induction false} CountsAbove(values: seq<real>, v: real)
    requires forall i :: 0 <= i < |values| ==> values[i] > v
    ensures Smaller(values, v) == 0 && Equal(values, v) == 0
  {
    if values != [] {
      CountsAbove(values[1..], v);
    }
  }

  // ---------------------------------------------------------------------------------------------
  // sorted(enumerate(values), key=value)
  // ---------------------------------------------------------------------------------------------

  datatype Entry = Entry(index: nat, value: real)

  function Keys(es: seq<Entry>): (keys: seq<real>)
    ensures |keys| == |es|
  {
    seq(|es|, i requires 0 <= i < |es| => es[i].value)
  }

  ghost predicate Ascending(es: seq<Entry>) {
    forall i, j :: 0 <= i < j < |es| ==> es[i].value <= es[j].value
  }

  /** Stable: an entry goes before those of equal value that came after it. */
  function Insert(e: Entry, es: seq<Entry>): (r: seq<Entry>)
    requires Ascending(es)
    ensures Ascending(r) && |r| == |es| + 1
    ensures forall x :: x in r <==> x == e || x in es
  {
    if es == [] || e.value <= es[0].value then [e] + es
    else
      assert es == [es[0]] + es[1..];
      var rest := Insert(e, es[1..]);
      assert forall x <- rest :: es[0].value <= x.value;
      [es[0]] + rest
  }

  function Sort(es: seq<Entry>): (r: seq<Entry>)
    ensures Ascending(r) && |r| == |es|
    ensures forall x :: x in r <==> x in es
  {
    if es == [] then []
    else
      assert es == [es[0]] + es[1..];
      Insert(es[0], Sort(es[1..]))
  }

  function Enumerate(values: seq<real>): (es: seq<Entry>)
    ensures |es| == |values|
    ensures forall e <- es :: e.index < |values| && e.value == values[e.index]
  {
    seq(|values|, i requires 0 <= i < |values| => Entry(i, values[i]))
  }

  lemma {:induction false} InsertKeepsCounts(e: Entry, es: seq<Entry>, v: real)
    requires Ascending(es)
    ensures Smaller(Keys(Insert(e, es)), v) == Smaller([e.value] + Keys(es), v)
    ensures Equal(Keys(Insert(e, es)), v) == Equal([e.value] + Keys(es), v)
  {
    var r := Insert(e, es);
    assert ([e.value] + Keys(es))[1..] == Keys(es);
    assert Keys(r)[1..] == Keys(r[1..]);
    if es == [] || e.value <= es[0].value {
      assert r[1..] == es;
    } else {
      InsertKeepsCounts(e, es[1..], v);
      assert r[1..] == Insert(e, es[1..]);
      assert Keys(es)[1..] == Keys(es[1..]);
      assert ([e.value] + Keys(es[1..]))[1..] == Keys(es[1..]);
    }
  }

  lemma {:induction false} SortKeepsCounts(es: seq<Entry>, v: real)
    ensures Smaller(Keys(Sort(es)), v) == Smaller(Keys(es), v)
    ensures Equal(Keys(Sort(es)), v) == Equal(Keys(es), v)
  {
    if es != [] {
      SortKeepsCounts(es[1..], v);
      InsertKeepsCounts(es[0], Sort(es[1..]), v);
      assert Keys(es)[1..] == Keys(es[1..]);
      assert ([es[0].value] + Keys(Sort(es[1..])))[1..] == Keys(Sort(es[1..]));
    }
  }

  lemma BlockCounts(keys: seq<real>, v: real, start: nat, end: nat)
    requires start <= end <= |keys|
    requires forall i :: 0 <= i < start ==> keys[i] < v
    requires forall i :: start <= i < end ==> keys[i] == v
    requires forall i :: end <= i < |keys| ==> keys[i] > v
    ensures Smaller(keys, v) == start && Equal(keys, v) == end - start
  {
    hide Smaller, Equal;
    assert keys == keys[..start] + keys[start..end] + keys[end..];
    CountsConcat(keys[..start] + keys[start..end], keys[end..], v);
    CountsConcat(keys[..start], keys[start..end], v);
    CountsBelow(keys[..start], v);
    CountsTied(keys[start..end], v);
    CountsAbove(keys[end..], v);
  }

  /** A maximal block of equal values in an ascending list sits exactly at its rank. */
  lemma BlockRank(values: seq<real>, es: seq<Entry>, start: nat, end: nat)
    requires es == Sort(Enumerate(values)) && start < end <= |es|
    requires forall k :: start <= k < end ==> es[k].value == es[start].value
    requires start > 0 ==> es[start - 1].value < es[start].value
    requires end < |es| ==> es[start].value < es[end].value
    ensures RankOf(values, es[start].value) == (start + 1 + end) as real / 2.0
  {
    hide Sort, Smaller, Equal;
    var v := es[start].value;
    forall i | 0 <= i < start ensures es[i].value < v {
      assert i < start - 1 ==> es[i].value <= es[start - 1].value;
    }
    forall i | end <= i < |es| ensures es[i].value > v {
      assert i > end ==> es[end].value <= es[i].value;
    }
    hide Ascending;
    BlockCounts(Keys(es), v, start, end);
    SortKeepsCounts(Enumerate(values), v);
    assert Keys(Enumerate(values)) == values;
  }

  /** `_ranks`: block by block through the sorted values, written back to the original positions. */
  method Ranks(values: seq<real>) returns (result: seq<real>)
    ensures result == RanksOf(values)
  {
    hide Sort, RankOf;
    var indexed := Sort(Enumerate(values));
    assert forall k :: 0 <= k < |indexed| ==> indexed[k] in Enumerate(values);
    var ranks := new real[|values|](_ => 0.0);
    var index := 0;
    while index < |indexed|
      invariant 0 <= index <= |indexed|
      invariant 0 < index < |indexed| ==> indexed[index - 1].value < indexed[index].value
      invariant forall k :: 0 <= k < index ==> ranks[indexed[k].index] == RankOf(values, indexed[k].value)
    {
      var end := index + 1;
      while end < |indexed| && indexed[end].value == indexed[index].value
        invariant index < end <= |indexed|
        invariant forall k :: index <= k < end ==> indexed[k].value == indexed[index].value
      {
        end := end + 1;
      }
      var averageRank := (index + 1 + end) as real / 2.0;
      BlockRank(values, indexed, index, end);
      for k := index to end
        invariant forall j :: 0 <= j < k ==> ranks[indexed[j].index] == RankOf(values, indexed[j].value)
      {
        ranks[indexed[k].index] := averageRank;
      }
      index := end;
    }
    forall i | 0 <= i < |values| ensures ranks[i] == RankOf(values, values[i]) {
      assert Enumerate(values)[i] in indexed;
      var k :| 0 <= k < |indexed| && indexed[k] == Entry(i, values[i]);
    }
    result := ranks[..];
  }

  // ---------------------------------------------------------------------------------------------
  // What ranks guarantee
  // ---------------------------------------------------------------------------------------------

  lemma {:induction false} CountsPartition(values: seq<real>, v: real)
    ensures Smaller(values, v) + Equal(values, v) + Greater(values, v) == |values|
  {
    if values != [] { CountsPartition(values[1..], v); }
  }

  lemma {:induction false} EqualPositive(values: seq<real>, v: real)
    requires v in values
    ensures Equal(values, v) > 0
  {
    if values[0] != v { EqualPositive(values[1..], v); }
  }

  lemma {:induction false} SmallerSkips(values: seq<real>, v: real, w: real)
    requires v < w
    ensures Smaller(values, v) + Equal(values, v) <= Smaller(values, w)
  {
    if values != [] { SmallerSkips(values[1..], v, w); }
  }

  /** Ranks order values exactly as the values themselves, ties included. */
  lemma RanksPreserveOrder(values: seq<real>, i: nat, j: nat)
    requires i < |values| && j < |values|
    ensures RanksOf(values)[i] < RanksOf(values)[j] <==> values[i] < values[j]
    ensures RanksOf(values)[i] == RanksOf(values)[j] <==> values[i] == values[j]
  {
    EqualPositive(values, values[i]);
    EqualPositive(values, values[j]);
    if values[i] < values[j] {
      SmallerSkips(values, values[i], values[j]);
    } else if values[j] < values[i] {
      SmallerSkips(values, values[j], values[i]);
    }
  }

  /** How often each element of `a` exceeds, or is exceeded by, an element of `b`. */
  function CrossSmaller(a: seq<real>, b: seq<real>): nat {
    if a == [] then 0 else Smaller(b, a[0]) + CrossSmaller(a[1..], b)
  }

  function CrossGreater(a: seq<real>, b: seq<real>): nat {
    if a == [] then 0 else Greater(b, a[0]) + CrossGreater(a[1..], b)
  }

  lemma {:induction false} CrossGreaterFirst(a: seq<real>, b: seq<real>)
    requires b != []
    ensures CrossGreater(a, b) == Smaller(a, b[0]) + CrossGreater(a, b[1..])
  {
    if a != [] { CrossGreaterFirst(a[1..], b); }
  }

  /** Counting the pairs from either side gives the same number. */
  lemma {:induction false} CrossSwap(a: seq<real>, b: seq<real>)
    ensures CrossSmaller(a, b) == CrossGreater(b, a)
  {
    if a == [] {
      CrossGreaterNone(b);
    } else {
      CrossSwap(a[1..], b);
      CrossGreaterFirst(b, a);
    }
  }

  lemma {:induction false} CrossGreaterNone(b: seq<real>)
    ensures CrossGreater(b, []) == 0
  {
    if b != [] { CrossGreaterNone(b[1..]); }
  }

  function CrossEqual(a: seq<real>, b: seq<real>): nat {
    if a == [] then 0 else Equal(b, a[0]) + CrossEqual(a[1..], b)
  }

  lemma OneMoreRow(rows: nat, n: nat)
    ensures (rows + 1) * n == rows * n + n
  {
  }

  lemma {:induction false} CrossPartition(a: seq<real>, b: seq<real>)
    ensures CrossSmaller(a, b) + CrossEqual(a, b) + CrossGreater(a, b) == |a| * |b|
  {
    if a != [] {
      var n := |b|;
      CrossPartition(a[1..], b);
      CountsPartition(b, a[0]);
      hide Smaller, Equal, Greater;
      assert |a| == |a[1..]| + 1;
      OneMoreRow(|a[1..]|, n);
    }
  }

  lemma {:induction false} RankSumByPairs(part: seq<real>, values: seq<real>)
    ensures Sum(RanksAgainst(part, values))
         == (2 * CrossSmaller(part, values) + CrossEqual(part, values) + |part|) as real / 2.0
  {
    if part != [] {
      RankSumByPairs(part[1..], values);
      assert RanksAgainst(part, values)[1..] == RanksAgainst(part[1..], values);
    }
  }

  function RanksAgainst(part: seq<real>, values: seq<real>): seq<real> {
    seq(|part|, i requires 0 <= i < |part| => RankOf(values, part[i]))
  }

  /** The ranks always add up to those of distinct values. */
  lemma RanksSum(values: seq<real>)
    ensures Sum(RanksOf(values)) == (|values| * (|values| + 1)) as real / 2.0
  {
    assert RanksOf(values) == RanksAgainst(values, values);
    RankSumByPairs(values, values);
    CrossSwap(values, values);
    CrossPartition(values, values);
  }

  function Negated(values: seq<real>): (r: seq<real>)
    ensures |r| == |values|
  {
    seq(|values|, i requires 0 <= i < |values| => -values[i])
  }

  lemma {:induction false} NegatedCounts(values: seq<real>, v: real)
    ensures Smaller(Negated(values), -v) == Greater(values, v)
    ensures Equal(Negated(values), -v) == Equal(values, v)
  {
    if values != [] {
      assert Negated(values)[1..] == Negated(values[1..]);
      NegatedCounts(values[1..], v);
    }
  }

  /** Every xs[i] replaced by c - xs[i]. */
  function Reflected(xs: seq<real>, c: real): (r: seq<real>)
    ensures |r| == |xs|
  {
    seq(|xs|, i requires 0 <= i < |xs| => c - xs[i])
  }

  /** Reversing the order of the values maps rank r to n + 1 - r. */
  lemma RanksNegate(values: seq<real>)
    ensures RanksOf(Negated(values)) == Reflected(RanksOf(values), (|values| + 1) as real)
  {
    forall i | 0 <= i < |values|
      ensures RankOf(Negated(values), -values[i]) == (|values| + 1) as real - RankOf(values, values[i])
    {
      NegatedCounts(values, values[i]);
      CountsPartition(values, values[i]);
    }
  }

  /** Ranks depend on the order of the values only: any order-preserving recoding keeps them. */
  lemma RanksOrdinal(a: seq<real>, b: seq<real>)
    requires |a| == |b|
    requires forall i, j :: 0 <= i < |a| && 0 <= j < |a| ==> (a[i] < a[j] <==> b[i] < b[j])
    ensures RanksOf(a) == RanksOf(b)
  {
    forall i | 0 <= i < |a| ensures RankOf(a, a[i]) == RankOf(b, b[i]) {
      CountsOrdinal(a, b, a[i], b[i]);
    }
  }

  lemma {:induction false} CountsOrdinal(a: seq<real>, b: seq<real>, v: real, w: real)
    requires |a| == |b|
    requires forall i :: 0 <= i < |a| ==> (a[i] < v <==> b[i] < w) && (v < a[i] <==> w < b[i])
    ensures Smaller(a, v) == Smaller(b, w) && Equal(a, v) == Equal(b, w)
  {
    if a != [] { CountsOrdinal(a[1..], b[1..], v, w); }
  }

  // ---------------------------------------------------------------------------------------------
  // Pearson
  // ---------------------------------------------------------------------------------------------

  function Dot(a: seq<real>, b: seq<real>): real
    requires |a| == |b|
  {
    if a == [] then 0.0 else a[0] * b[0] + Dot(a[1..], b[1..])
  }

  function Centred(xs: seq<real>): (r: seq<real>)
    requires xs != []
    ensures |r| == |xs|
  {
    seq(|xs|, i requires 0 <= i < |xs| => xs[i] - Mean(xs))
  }

  function Square(x: real): real {
    x * x
  }

  ghost predicate IsRoot(root: real, square: real) {
    root >= 0.0 && Square(root) == square
  }

  /** `_pearson`, with `rootA` and `rootB` standing for the two square roots it takes. */
  function Pearson(a: seq<real>, b: seq<real>, rootA: real, rootB: real): Option<real> {
    if |a| < 2 || |a| != |b| then None
    else if rootA == 0.0 || rootB == 0.0 then None
    else Some(Dot(Centred(a), Centred(b)) / (rootA * rootB))
  }

  ghost predicate RootsOf(a: seq<real>, b: seq<real>, rootA: real, rootB: real) {
    a != [] && b != [] &&
    IsRoot(rootA, Dot(Centred(a), Centred(a))) && IsRoot(rootB, Dot(Centred(b), Centred(b)))
  }

  function Form(t: real, u: real, aa: real, ab: real, bb: real): real {
    t * t * aa + 2.0 * t * u * ab + u * u * bb
  }

  function Mix(t: real, x: real, u: real, y: real): real {
    t * x + u * y
  }

  function Combination(t: real, a: seq<real>, u: real, b: seq<real>): (r: seq<real>)
    requires |a| == |b|
    ensures |r| == |a|
  {
    seq(|a|, i requires 0 <= i < |a| => Mix(t, a[i], u, b[i]))
  }

  lemma FormExact(t: real, u: real, x: real, y: real, aa: real, ab: real, bb: real)
    ensures var z := Mix(t, x, u, y);
      Form(t, u, Times(x, x) + aa, Times(x, y) + ab, Times(y, y) + bb) == Times(z, z) + Form(t, u, aa, ab, bb)
  {
    var z := Mix(t, x, u, y);
    assert z * z == t * t * (x * x) + 2.0 * t * u * (x * y) + u * u * (y * y);
  }

  lemma DotFirst(a: seq<real>, b: seq<real>)
    requires |a| == |b| && a != []
    ensures Dot(a, b) == Times(a[0], b[0]) + Dot(a[1..], b[1..])
  {
  }

  /** The squares of t * a[i] + u * b[i] add up to a quadratic form. */
  lemma {:induction false} CombinationDot(a: seq<real>, b: seq<real>, t: real, u: real)
    requires |a| == |b|
    ensures var c := Combination(t, a, u, b); Dot(c, c) == Form(t, u, Dot(a, a), Dot(a, b), Dot(b, b))
  {
    var c := Combination(t, a, u, b);
    hide Mix, Times;
    if a == [] {
      assert Form(t, u, 0.0, 0.0, 0.0) == 0.0;
    } else {
      hide Form, Dot;
      DotFirst(a, a);
      DotFirst(a, b);
      DotFirst(b, b);
      DotFirst(c, c);
      assert c[1..] == Combination(t, a[1..], u, b[1..]);
      CombinationDot(a[1..], b[1..], t, u);
      FormExact(t, u, a[0], b[0], Dot(a[1..], a[1..]), Dot(a[1..], b[1..]), Dot(b[1..], b[1..]));
    }
  }

  /** So the form is never negative. */
  lemma QuadraticForm(a: seq<real>, b: seq<real>, t: real, u: real)
    requires |a| == |b|
    ensures Form(t, u, Dot(a, a), Dot(a, b), Dot(b, b)) >= 0.0
  {
    hide Form, Dot, Combination;
    CombinationDot(a, b, t, u);
    DotZero(Combination(t, a, u, b));
  }

  lemma PositiveProduct(p: real, q: real, product: real)
    requires p > 0.0 && q > 0.0 && product == p * q
    ensures product > 0.0
  {
  }

  lemma SquareEven(x: real)
    ensures Square(-x) == Square(x) && Square(0.0) == 0.0
  {
  }

  lemma SquareOfPositive(x: real)
    requires x > 0.0
    ensures Square(x) > 0.0
  {
    PositiveProduct(x, x, Square(x));
  }

  lemma SquareSign(x: real)
    ensures x != 0.0 ==> Square(x) > 0.0
    ensures x == 0.0 ==> Square(x) == 0.0
  {
    hide Square;
    SquareEven(x);
    if x > 0.0 { SquareOfPositive(x); }
    if x < 0.0 { SquareOfPositive(-x); }
  }

  lemma {:induction false} DotSquare(a: seq<real>, b: seq<real>)
    requires |a| == |b|
    ensures Dot(b, b) >= 0.0
    ensures Dot(b, b) == 0.0 ==> Dot(a, b) == 0.0
  {
    if b != [] {
      DotSquare(a[1..], b[1..]);
      SquareSign(b[0]);
      assert Dot(b, b) == Square(b[0]) + Dot(b[1..], b[1..]);
      hide Square;
    }
  }

  /** Cauchy-Schwarz. */
  lemma CauchySchwarz(a: seq<real>, b: seq<real>)
    requires |a| == |b|
    ensures Dot(a, b) * Dot(a, b) <= Dot(a, a) * Dot(b, b)
  {
    hide Dot, Form;
    DotSquare(a, b);
    QuadraticForm(a, b, Dot(b, b), -Dot(a, b));
    Discriminant(Dot(a, a), Dot(a, b), Dot(b, b));
  }

  lemma NegativeProduct(p: real, q: real)
    requires p > 0.0 && q < 0.0
    ensures p * q < 0.0
  {
  }

  lemma Discriminant(aa: real, ab: real, bb: real)
    requires Form(bb, -ab, aa, ab, bb) >= 0.0
    requires bb >= 0.0 && (bb == 0.0 ==> ab == 0.0)
    ensures ab * ab <= aa * bb
  {
    var gap := aa * bb - ab * ab;
    assert Form(bb, -ab, aa, ab, bb) == bb * gap;
    if bb > 0.0 && gap < 0.0 { NegativeProduct(bb, gap); }
  }

  lemma SquareOrder(n: real, d: real)
    requires d > 0.0
    ensures n > d ==> n * n > d * d
    ensures n < -d ==> n * n > d * d
  {
    if n > d {
      assert n * n - d * d == (n - d) * (n + d) > 0.0;
    } else if n < -d {
      assert n * n - d * d == (-n - d) * (d - n) > 0.0;
    }
  }

  lemma RatioInUnit(n: real, p: real, q: real)
    requires p > 0.0 && q > 0.0 && n * n <= Square(p) * Square(q)
    ensures -1.0 <= n / (p * q) <= 1.0
  {
    var d := p * q;
    PositiveProduct(p, q, d);
    assert Square(p) * Square(q) == d * d;
    SquareOrder(n, d);
    UnitRatio(n, d);
  }

  lemma UnitRatio(n: real, d: real)
    requires d > 0.0 && -d <= n <= d
    ensures -1.0 <= n / d <= 1.0
  {
  }

  lemma RootPositive(root: real, square: real)
    requires IsRoot(root, square)
    ensures (root > 0.0 && square > 0.0) || (root == 0.0 && square == 0.0)
  {
    SquareSign(root);
    hide Square;
  }

  ghost predicate Constant(xs: seq<real>) {
    forall i, j :: 0 <= i < j < |xs| ==> xs[i] == xs[j]
  }

  lemma {:induction false} DotZero(xs: seq<real>)
    ensures Dot(xs, xs) >= 0.0
    ensures Dot(xs, xs) == 0.0 <==> forall i :: 0 <= i < |xs| ==> xs[i] == 0.0
  {
    if xs != [] {
      DotZero(xs[1..]);
      SquareSign(xs[0]);
      assert Dot(xs, xs) == Square(xs[0]) + Dot(xs[1..], xs[1..]);
      hide Square, Dot;
      assert forall i :: 1 <= i < |xs| ==> xs[i] == xs[1..][i - 1];
    }
  }

  /** A series does not vary exactly when it is constant. */
  lemma ConstantExactly(xs: seq<real>)
    requires xs != []
    ensures Dot(Centred(xs), Centred(xs)) == 0.0 <==> Constant(xs)
  {
    DotZero(Centred(xs));
    hide Dot, Mean;
    assert forall i :: 0 <= i < |xs| ==> Centred(xs)[i] == xs[i] - Mean(xs);
    hide Centred;
    if Constant(xs) { MeanBounded(xs, xs[0], xs[0]); }
    forall i, j | Dot(Centred(xs), Centred(xs)) == 0.0 && 0 <= i < j < |xs| ensures xs[i] == xs[j] {
      assert Centred(xs)[i] == Centred(xs)[j];
    }
  }

  /**
    Pearson's coefficient is undefined exactly for unequal or short series and when one is constant, and
    lies in [-1, 1] otherwise.
  */
  lemma PearsonInUnit(a: seq<real>, b: seq<real>, rootA: real, rootB: real)
    requires |a| == |b| >= 2 ==> RootsOf(a, b, rootA, rootB)
    ensures var r := Pearson(a, b, rootA, rootB);
      && (r.None? <==> |a| < 2 || |a| != |b| || Constant(a) || Constant(b))
      && (r.Some? ==> -1.0 <= r.value <= 1.0)
  {
    if |a| == |b| >= 2 { PearsonOfPairs(a, b, rootA, rootB); }
  }

  lemma PearsonOfPairs(a: seq<real>, b: seq<real>, rootA: real, rootB: real)
    requires |a| == |b| >= 2 && RootsOf(a, b, rootA, rootB)
    ensures var r := Pearson(a, b, rootA, rootB);
      && (r.None? <==> Constant(a) || Constant(b))
      && (r.Some? ==> -1.0 <= r.value <= 1.0)
  {
    hide Dot, Centred;
    RootPositive(rootA, Dot(Centred(a), Centred(a)));
    RootPositive(rootB, Dot(Centred(b), Centred(b)));
    ConstantExactly(a);
    ConstantExactly(b);
    hide IsRoot, Constant;
    if rootA > 0.0 && rootB > 0.0 {
      CauchySchwarz(Centred(a), Centred(b));
      RatioInUnit(Dot(Centred(a), Centred(b)), rootA, rootB);
    }
  }

  lemma {:induction false} SumReflected(xs: seq<real>, c: real)
    ensures Sum(Reflected(xs, c)) == c * |xs| as real - Sum(xs)
  {
    if xs != [] {
      assert Reflected(xs, c)[1..] == Reflected(xs[1..], c);
      SumReflected(xs[1..], c);
    }
  }

  lemma CentredReflected(xs: seq<real>, c: real)
    requires xs != []
    ensures Centred(Reflected(xs, c)) == Negated(Centred(xs))
  {
    SumReflected(xs, c);
    var n := |xs| as real;
    assert (c * n - Sum(xs)) / n == c - Sum(xs) / n;
    assert Mean(Reflected(xs, c)) == c - Mean(xs);
  }

  lemma {:induction false} DotNegated(a: seq<real>, b: seq<real>)
    requires |a| == |b|
    ensures Dot(Negated(a), b) == -Dot(a, b)
    ensures Dot(Negated(a), Negated(a)) == Dot(a, a)
  {
    if a != [] {
      assert Negated(a)[1..] == Negated(a[1..]);
      DotNegated(a[1..], b[1..]);
    }
  }

  /** Spearman: reversing one series keeps its root and flips the sign of the rank correlation. */
  lemma SpearmanReverses(a: seq<real>, b: seq<real>, rootA: real, rootB: real)
    requires |a| == |b| >= 2 && RootsOf(RanksOf(a), RanksOf(b), rootA, rootB)
    ensures RootsOf(RanksOf(Negated(a)), RanksOf(b), rootA, rootB)
    ensures Pearson(RanksOf(Negated(a)), RanksOf(b), rootA, rootB)
         == match Pearson(RanksOf(a), RanksOf(b), rootA, rootB) case None => None case Some(r) => Some(-r)
  {
    hide RankOf, Dot;
    var ranks := RanksOf(a);
    RanksNegate(a);
    CentredReflected(ranks, (|a| + 1) as real);
    DotNegated(Centred(ranks), Centred(RanksOf(b)));
    DotNegated(Centred(ranks), Centred(ranks));
    if rootA != 0.0 && rootB != 0.0 {
      NegatedRatio(Dot(Centred(ranks), Centred(RanksOf(b))), rootA * rootB);
    }
  }

  lemma NegatedRatio(x: real, y: real)
    requires y != 0.0
    ensures (-x) / y == -(x / y)
  {
  }

  lemma RatioSelf(x: real)
    requires x > 0.0
    ensures x / x == 1.0
  {
  }

  lemma RanksConstant(xs: seq<real>)
    ensures Constant(RanksOf(xs)) <==> Constant(xs)
  {
    forall i, j | 0 <= i < j < |xs| ensures RanksOf(xs)[i] == RanksOf(xs)[j] <==> xs[i] == xs[j] {
      RanksPreserveOrder(xs, i, j);
    }
    hide RankOf;
  }

  /** The rank correlation is undefined exactly when a series is constant, and lies in [-1, 1] otherwise. */
  lemma SpearmanInUnit(a: seq<real>, b: seq<real>, rootA: real, rootB: real)
    requires |a| == |b| >= 2 && RootsOf(RanksOf(a), RanksOf(b), rootA, rootB)
    ensures var r := Pearson(RanksOf(a), RanksOf(b), rootA, rootB);
      && (r.None? <==> Constant(a) || Constant(b))
      && (r.Some? ==> -1.0 <= r.value <= 1.0)
  {
    hide RankOf, Constant, Dot, Centred;
    RanksConstant(a);
    RanksConstant(b);
    PearsonInUnit(RanksOf(a), RanksOf(b), rootA, rootB);
  }

  /** A series that is not constant correlates perfectly with any order-preserving recoding. */
  lemma SpearmanPerfect(a: seq<real>, b: seq<real>, root: real)
    requires |a| == |b| >= 2 && RootsOf(RanksOf(a), RanksOf(b), root, root) && !Constant(a)
    requires forall i, j :: 0 <= i < |a| && 0 <= j < |a| ==> (a[i] < a[j] <==> b[i] < b[j])
    ensures Pearson(RanksOf(a), RanksOf(b), root, root) == Some(1.0)
  {
    hide RankOf, Dot, Constant, Centred;
    RanksOrdinal(a, b);
    RanksConstant(a);
    ConstantExactly(RanksOf(a));
    RootPositive(root, Dot(Centred(RanksOf(a)), Centred(RanksOf(a))));
    assert Square(root) == root * root;
    hide Square;
    RatioSelf(Square(root));
  }

  // ---------------------------------------------------------------------------------------------
  // The extreme values
  // ---------------------------------------------------------------------------------------------

  /** With the roots as coefficients the form measures what is missing to equality in Cauchy-Schwarz. */
  lemma FormGap(p: real, q: real, ab: real)
    requires p > 0.0 && q > 0.0
    ensures Form(q, -p, Square(p), ab, Square(q)) == 0.0 <==> ab == p * q
  {
    var d := p * q;
    PositiveProduct(p, q, d);
    assert Form(q, -p, Square(p), ab, Square(q)) == 2.0 * (d * (d - ab));
    if ab != d {
      if ab < d { PositiveProduct(d, d - ab, d * (d - ab)); } else { NegativeProduct(d, d - ab); }
    }
  }

  lemma QuotientOne(n: real, d: real)
    requires d > 0.0
    ensures n / d == 1.0 <==> n == d
  {
    var q := n / d;
    assert q * d == n;
  }

  /** The deviations of the two series are proportional, each scaled by the other's spread. */
  ghost predicate Proportional(a: seq<real>, b: seq<real>, rootA: real, rootB: real)
    requires |a| == |b| && a != []
  {
    forall i :: 0 <= i < |a| ==> rootB * Centred(a)[i] == rootA * Centred(b)[i]
  }

  lemma DotOneExactly(x: seq<real>, y: seq<real>, p: real, q: real)
    requires |x| == |y| && p > 0.0 && q > 0.0 && Dot(x, x) == Square(p) && Dot(y, y) == Square(q)
    ensures Dot(x, y) / (p * q) == 1.0 <==> forall i :: 0 <= i < |x| ==> q * x[i] == p * y[i]
  {
    hide Dot, Square, Form;
    var c := Combination(q, x, -p, y);
    PositiveProduct(p, q, p * q);
    QuotientOne(Dot(x, y), p * q);
    CombinationDot(x, y, q, -p);
    FormGap(p, q, Dot(x, y));
    DotZero(c);
    assert forall i :: 0 <= i < |x| ==> c[i] == Mix(q, x[i], -p, y[i]);
    hide Combination;
    forall i | 0 <= i < |x| ensures c[i] == 0.0 <==> q * x[i] == p * y[i] { MixZero(p, q, x[i], y[i]); }
  }

  lemma MixZero(p: real, q: real, x: real, y: real)
    ensures Mix(q, x, -p, y) == 0.0 <==> q * x == p * y
  {
  }

  /** Pearson's coefficient is 1 exactly when both series vary and their deviations are proportional. */
  lemma PearsonOneExactly(a: seq<real>, b: seq<real>, rootA: real, rootB: real)
    requires |a| == |b| >= 2 && RootsOf(a, b, rootA, rootB)
    ensures Pearson(a, b, rootA, rootB) == Some(1.0)
       <==> rootA > 0.0 && rootB > 0.0 && Proportional(a, b, rootA, rootB)
  {
    hide Dot, Centred, Square;
    if rootA > 0.0 && rootB > 0.0 { DotOneExactly(Centred(a), Centred(b), rootA, rootB); }
  }

  lemma RootUnique(one: real, other: real, square: real)
    requires IsRoot(one, square) && IsRoot(other, square)
    ensures one == other
  {
    SquareSign(one);
    SquareSign(other);
    if one > 0.0 { SquareOrder(other, one); }
    if other > 0.0 { SquareOrder(one, other); }
  }

  lemma ScaledOrder(p: real, q: real, x: real, x': real, y: real, y': real)
    requires p > 0.0 && q > 0.0 && q * x == p * y && q * x' == p * y'
    ensures x < x' <==> y < y'
  {
    ScaleOrder(x, x', q);
    ScaleOrder(y, y', p);
    assert x * q == y * p && x' * q == y' * p;
  }

  /** Series with proportional deviations are ordered alike. */
  lemma ProportionalOrder(a: seq<real>, b: seq<real>, rootA: real, rootB: real, i: nat, j: nat)
    requires |a| == |b| && i < |a| && j < |a| && rootA > 0.0 && rootB > 0.0 && Proportional(a, b, rootA, rootB)
    ensures a[i] < a[j] <==> b[i] < b[j]
  {
    var x, y := Centred(a), Centred(b);
    assert x[i] == a[i] - Mean(a) && x[j] == a[j] - Mean(a) && y[i] == b[i] - Mean(b) && y[j] == b[j] - Mean(b);
    hide Mean;
    ScaledOrder(rootA, rootB, x[i], x[j], y[i], y[j]);
  }

  /** The rank correlation is 1 exactly when the series vary and have the same ranks. */
  lemma SpearmanOneExactly(a: seq<real>, b: seq<real>, rootA: real, rootB: real)
    requires |a| == |b| >= 2 && RootsOf(RanksOf(a), RanksOf(b), rootA, rootB)
    ensures Pearson(RanksOf(a), RanksOf(b), rootA, rootB) == Some(1.0)
       <==> !Constant(a) && RanksOf(a) == RanksOf(b)
  {
    var ra, rb := RanksOf(a), RanksOf(b);
    hide RankOf, Dot, Constant, Centred, Square, Proportional;
    PearsonOneExactly(ra, rb, rootA, rootB);
    if Pearson(ra, rb, rootA, rootB) == Some(1.0) {
      SpearmanInUnit(a, b, rootA, rootB);
      forall i, j | 0 <= i < |a| && 0 <= j < |a| ensures a[i] < a[j] <==> b[i] < b[j] {
        ProportionalOrder(ra, rb, rootA, rootB, i, j);
        RanksPreserveOrder(a, i, j);
        RanksPreserveOrder(b, i, j);
      }
      RanksOrdinal(a, b);
    } else if !Constant(a) && ra == rb {
      RootUnique(rootA, rootB, Dot(Centred(ra), Centred(ra)));
      forall i, j | 0 <= i < |a| && 0 <= j < |a| ensures a[i] < a[j] <==> b[i] < b[j] {
        RanksPreserveOrder(a, i, j);
        RanksPreserveOrder(b, i, j);
      }
      SpearmanPerfect(a, b, rootA);
    }
  }

  /** The rank correlation is -1 exactly when the series vary and their ranks are opposite. */
  lemma SpearmanMinusOneExactly(a: seq<real>, b: seq<real>, rootA: real, rootB: real)
    requires |a| == |b| >= 2 && RootsOf(RanksOf(a), RanksOf(b), rootA, rootB)
    ensures Pearson(RanksOf(a), RanksOf(b), rootA, rootB) == Some(-1.0)
       <==> !Constant(a) && Reflected(RanksOf(a), (|a| + 1) as real) == RanksOf(b)
  {
    hide RankOf, Dot, Centred, Square;
    SpearmanReverses(a, b, rootA, rootB);
    SpearmanOneExactly(Negated(a), b, rootA, rootB);
    RanksNegate(a);
    assert Constant(Negated(a)) <==> Constant(a) by { NegatedConstant(a); }
  }

  lemma NegatedConstant(xs: seq<real>)
    ensures Constant(Negated(xs)) <==> Constant(xs)
  {
    assert forall i :: 0 <= i < |xs| ==> Negated(xs)[i] == -xs[i];
  }
}
