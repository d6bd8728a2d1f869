/** Overall and per-category scores of benchmark/arc_bench/adapter.py, over the grades of a review. */
module GradeAggregation {
  import opened StrictGrading
  import opened Reals
  import opened Texts
  import opened Wrappers

  // ---------------------------------------------------------------------------------------------
  // The overall score
  // ---------------------------------------------------------------------------------------------

  function TotalWeight(grades: seq<Grade>): real {
    if grades == [] then 0.0 else TotalWeight(grades[..|grades| - 1]) + grades[|grades| - 1].weight
  }

  function WeightedSum(grades: seq<Grade>): real {
    if grades == [] then 0.0
    else
      var last := grades[|grades| - 1];
      WeightedSum(grades[..|grades| - 1]) + Times(last.weight, last.score)
  }

  /** `compute_overall_score` before rounding. */
  function ExactOverall(grades: seq<Grade>): real {
    if TotalWeight(grades) <= 0.0 then 0.0 else WeightedSum(grades) / TotalWeight(grades)
  }

  function ComputeOverallScore(grades: seq<Grade>): real {
    if TotalWeight(grades) <= 0.0 then 0.0 else Round4(ExactOverall(grades))
  }

  ghost predicate Sound(grades: seq<Grade>) {
    forall i :: 0 <= i < |grades| ==> grades[i].weight > 0.0 && 0.0 <= grades[i].score <= 1.0
  }

  // ---------------------------------------------------------------------------------------------
  // Categories
  // ---------------------------------------------------------------------------------------------

  datatype Group = Group(leafCount: nat, weight: real, weightedSum: real)

  datatype CategoryScore = CategoryScore(leafCount: nat, weight: real, score: real)

  function Key(g: Grade): string {
    if g.category == "" then "Uncategorized" else g.category
  }

  function Added(group: Group, g: Grade): Group {
    Group(group.leafCount + 1, group.weight + g.weight, group.weightedSum + Times(g.weight, g.score))
  }

  const EMPTY := Group(0, 0.0, 0.0)

  /** Count, weight and weighted sum of one category's grades. */
  function GroupOf(grades: seq<Grade>, category: string): Group {
    if grades == [] then EMPTY
    else
      var n := |grades| - 1;
      var before := GroupOf(grades[..n], category);
      if Key(grades[n]) == category then Added(before, grades[n]) else before
  }

  /** The categories in order of first appearance, as the dictionary keeps them. */
  function Categories(grades: seq<Grade>): seq<string> {
    if grades == [] then []
    else
      var n := |grades| - 1;
      var before := Categories(grades[..n]);
      if Key(grades[n]) in before then before else before + [Key(grades[n])]
  }

  /** A category's own mean before rounding. */
  function ExactMean(group: Group): real {
    if group.weight == 0.0 then 0.0 else group.weightedSum / group.weight
  }

  function ScoreOfGroup(group: Group): CategoryScore {
    CategoryScore(group.leafCount, Round4(group.weight), if group.weight == 0.0 then 0.0 else Round4(ExactMean(group)))
  }

  /** `compute_category_scores` */
  method ComputeCategoryScores(grades: seq<Grade>) returns (order: seq<string>, scores: map<string, CategoryScore>)
    ensures order == Categories(grades)
    ensures forall c :: c in scores <==> c in order
    ensures forall c <- scores :: scores[c] == ScoreOfGroup(GroupOf(grades, c))
  {
    hide Round4;
    order := [];
    var groups: map<string, Group> := map[];
    for i := 0 to |grades|
      invariant order == Categories(grades[..i])
      invariant forall c :: c in groups <==> c in order
      invariant forall c :: GroupOf(grades[..i], c) == if c in groups then groups[c] else EMPTY
    {
      assert grades[..i + 1][..i] == grades[..i];
      var category := Key(grades[i]);
      if category !in groups {
        order := order + [category];
        groups := groups[category := EMPTY];
      }
      groups := groups[category := Added(groups[category], grades[i])];
    }
    assert grades[..|grades|] == grades;
    scores := map c | c in groups :: ScoreOfGroup(groups[c]);
  }

  lemma {:induction false} CategoriesDistinct(grades: seq<Grade>)
    ensures forall i, j :: 0 <= i < j < |Categories(grades)| ==> Categories(grades)[i] != Categories(grades)[j]
  {
    if grades != [] { CategoriesDistinct(grades[..|grades| - 1]); }
  }

  lemma {:induction false} GroupOfOther(grades: seq<Grade>, category: string)
    requires category !in Categories(grades)
    ensures GroupOf(grades, category) == EMPTY
  {
    if grades != [] { GroupOfOther(grades[..|grades| - 1], category); }
  }

  /** The three columns of the table, added up over a list of categories. */
  function Totals(keys: seq<string>, grades: seq<Grade>): Group {
    if keys == [] then EMPTY
    else
      var n := |keys| - 1;
      var before, own := Totals(keys[..n], grades), GroupOf(grades, keys[n]);
      Group(before.leafCount + own.leafCount, before.weight + own.weight, before.weightedSum + own.weightedSum)
  }

  lemma GroupOneMore(grades: seq<Grade>, n: nat, category: string)
    requires |grades| == n + 1
    ensures GroupOf(grades, category)
         == var before := GroupOf(grades[..n], category);
            if Key(grades[n]) == category then Added(before, grades[n]) else before
  {
    hide Times, Key;
  }

  lemma {:induction false} TotalsOneMore(keys: seq<string>, grades: seq<Grade>, n: nat)
    requires |grades| == n + 1
    requires forall i, j :: 0 <= i < j < |keys| ==> keys[i] != keys[j]
    ensures Totals(keys, grades)
         == if Key(grades[n]) in keys then Added(Totals(keys, grades[..n]), grades[n]) else Totals(keys, grades[..n])
  {
    hide Times, GroupOf, Key;
    if keys != [] {
      var k := |keys| - 1;
      TotalsOneMore(keys[..k], grades, n);
      GroupOneMore(grades, n, keys[k]);
      assert keys == keys[..k] + [keys[k]];
    }
  }

  lemma TotalsSnoc(keys: seq<string>, key: string, grades: seq<Grade>)
    ensures Totals(keys + [key], grades)
         == var before, own := Totals(keys, grades), GroupOf(grades, key);
            Group(before.leafCount + own.leafCount, before.weight + own.weight, before.weightedSum + own.weightedSum)
  {
    assert (keys + [key])[..|keys|] == keys;
  }

  /** Categories lose nothing: counts, weights and weighted sums add up to those of all grades. */
  lemma {:induction false} CategoriesConserve(grades: seq<Grade>)
    ensures Totals(Categories(grades), grades) == Group(|grades|, TotalWeight(grades), WeightedSum(grades))
  {
    hide Times;
    if grades != [] {
      var n := |grades| - 1;
      var before := Categories(grades[..n]);
      CategoriesConserve(grades[..n]);
      CategoriesDistinct(grades[..n]);
      TotalsOneMore(before, grades, n);
      if Key(grades[n]) !in before {
        GroupOfOther(grades[..n], Key(grades[n]));
        TotalsSnoc(before, Key(grades[n]), grades);
      }
    }
  }

  // ---------------------------------------------------------------------------------------------
  // The overall score as a mean of means
  // ---------------------------------------------------------------------------------------------

  /** The category means, each weighted by its category; rounded or exact. */
  function MeanSum(keys: seq<string>, grades: seq<Grade>, rounded: bool): real {
    if keys == [] then 0.0
    else
      var n := |keys| - 1;
      var group := GroupOf(grades, keys[n]);
      MeanSum(keys[..n], grades, rounded)
      + Times(group.weight, if rounded then ScoreOfGroup(group).score else ExactMean(group))
  }

  lemma {:induction false} GroupSound(grades: seq<Grade>, category: string)
    requires Sound(grades)
    ensures var group := GroupOf(grades, category);
      0.0 <= group.weightedSum <= group.weight && (group.leafCount > 0 <==> group.weight > 0.0)
  {
    if grades != [] {
      var g := grades[|grades| - 1];
      GroupSound(grades[..|grades| - 1], category);
      PartBounds(g.weight, g.score, Times(g.weight, g.score));
      hide Times;
    }
  }

  lemma MeanTimesWeight(sum: real, weight: real)
    requires weight > 0.0
    ensures Times(weight, sum / weight) == sum
  {
  }

  lemma UnitQuotient(sum: real, weight: real)
    requires weight > 0.0 && 0.0 <= sum <= weight
    ensures 0.0 <= sum / weight <= 1.0
  {
  }

  /** Every category score is in [0, 1]. */
  lemma CategoryScoreInUnit(grades: seq<Grade>, category: string)
    requires Sound(grades)
    ensures 0.0 <= ScoreOfGroup(GroupOf(grades, category)).score <= 1.0
  {
    hide Round4;
    var group := GroupOf(grades, category);
    GroupSound(grades, category);
    if group.weight > 0.0 {
      UnitQuotient(group.weightedSum, group.weight);
      Round4Close(ExactMean(group));
    }
  }

  lemma {:induction false} ExactMeanSum(keys: seq<string>, grades: seq<Grade>)
    requires Sound(grades)
    ensures MeanSum(keys, grades, false) == Totals(keys, grades).weightedSum
  {
    if keys != [] {
      var n := |keys| - 1;
      var group := GroupOf(grades, keys[n]);
      ExactMeanSum(keys[..n], grades);
      GroupSound(grades, keys[n]);
      hide GroupOf, Times;
      if group.weight > 0.0 { MeanTimesWeight(group.weightedSum, group.weight); }
    }
  }

  lemma Nonnegative(p: real, q: real, product: real)
    requires p >= 0.0 && q >= 0.0 && product == p * q
    ensures product >= 0.0
  {
  }

  lemma NearScaled(x: real, y: real, weight: real)
    requires Near(x, y, HALF_UNIT) && weight >= 0.0
    ensures Near(Times(weight, x), Times(weight, y), weight * HALF_UNIT)
  {
    Nonnegative(weight, HALF_UNIT - (x - y), weight * HALF_UNIT - (Times(weight, x) - Times(weight, y)));
    Nonnegative(weight, HALF_UNIT - (y - x), weight * HALF_UNIT - (Times(weight, y) - Times(weight, x)));
  }

  lemma MeanNear(group: Group)
    ensures Near(ScoreOfGroup(group).score, ExactMean(group), HALF_UNIT)
  {
    hide Round4;
    Round4Close(ExactMean(group));
  }

  lemma {:induction false} RoundedMeanSum(keys: seq<string>, grades: seq<Grade>)
    requires Sound(grades)
    ensures Totals(keys, grades).weight >= 0.0
    ensures Near(MeanSum(keys, grades, true), MeanSum(keys, grades, false), Totals(keys, grades).weight * HALF_UNIT)
  {
    if keys != [] {
      var n := |keys| - 1;
      var group := GroupOf(grades, keys[n]);
      RoundedMeanSum(keys[..n], grades);
      GroupSound(grades, keys[n]);
      hide GroupOf, Round4, Times, ExactMean;
      var rounded, exact := ScoreOfGroup(group).score, ExactMean(group);
      MeanNear(group);
      NearScaled(rounded, exact, group.weight);
    }
  }

  lemma {:induction false} TotalPositive(grades: seq<Grade>)
    requires Sound(grades)
    ensures grades == [] ==> TotalWeight(grades) == 0.0
    ensures grades != [] ==> TotalWeight(grades) > 0.0
  {
    if grades != [] { TotalPositive(grades[..|grades| - 1]); }
  }

  /** Before rounding the overall score is the weight-weighted mean of the category means. */
  lemma OverallIsMeanOfMeans(grades: seq<Grade>)
    requires Sound(grades) && grades != []
    ensures var keys := Categories(grades);
      && Totals(keys, grades).weight > 0.0
      && ExactOverall(grades) == MeanSum(keys, grades, false) / Totals(keys, grades).weight
  {
    TotalPositive(grades);
    CategoriesConserve(grades);
    ExactMeanSum(Categories(grades), grades);
  }

  lemma NearQuotient(x: real, y: real, slack: real, weight: real)
    requires weight > 0.0 && Near(x, y, weight * slack)
    ensures Near(x / weight, y / weight, slack)
  {
    var p, q := x / weight, y / weight;
    assert p * weight == x && q * weight == y;
    ScaleOrder(slack, p - q, weight);
    ScaleOrder(slack, q - p, weight);
  }

  /** After rounding, the reported overall and category scores still agree to one unit in the fourth place. */
  lemma ReportedScoresAgree(grades: seq<Grade>)
    requires Sound(grades) && grades != []
    ensures var keys := Categories(grades);
      && Totals(keys, grades).weight > 0.0
      && Near(ComputeOverallScore(grades), MeanSum(keys, grades, true) / Totals(keys, grades).weight, 2.0 * HALF_UNIT)
  {
    hide MeanSum, Totals, Categories, Round4;
    var keys := Categories(grades);
    TotalPositive(grades);
    OverallIsMeanOfMeans(grades);
    RoundedMeanSum(keys, grades);
    NearQuotient(MeanSum(keys, grades, true), MeanSum(keys, grades, false), HALF_UNIT, Totals(keys, grades).weight);
    Round4Close(ExactOverall(grades));
  }

  lemma TwoCategories(a: Grade, b: Grade)
    requires Key(a) != Key(b) && a.weight == 1.0 && b.weight == 1.0
    ensures var grades := [a, b];
      && Categories(grades) == [Key(a), Key(b)]
      && GroupOf(grades, Key(a)) == Group(1, 1.0, a.score) && GroupOf(grades, Key(b)) == Group(1, 1.0, b.score)
      && TotalWeight(grades) == 2.0 && WeightedSum(grades) == a.score + b.score
  {
    hide Key;
    assert Times(1.0, a.score) == a.score && Times(1.0, b.score) == b.score;
    hide Times;
    assert [a, b][..1] == [a] && [a][..0] == [];
    assert Categories([a]) == [] + [Key(a)];
    assert forall c :: GroupOf([a], c) == if Key(a) == c then Group(1, 1.0, a.score) else EMPTY;
    assert TotalWeight([a]) == 1.0 && WeightedSum([a]) == a.score;
  }

  lemma RoundHalf()
    ensures Round4(0.00005) == 0.0 && Round4(0.0001) == 0.0001 && Round4(0.0) == 0.0
  {
    assert 0.00005 * 10000.0 == 0.5 && 0.0001 * 10000.0 == 1.0;
    assert (0.5).Floor == 0 && (1.0).Floor == 1 && (0.0).Floor == 0;
  }

  lemma MeanSumTwo(x: string, y: string, grades: seq<Grade>)
    ensures var gx, gy := GroupOf(grades, x), GroupOf(grades, y);
      && MeanSum([x, y], grades, true)
         == Times(gx.weight, ScoreOfGroup(gx).score) + Times(gy.weight, ScoreOfGroup(gy).score)
      && Totals([x, y], grades).weight == gx.weight + gy.weight
  {
    hide GroupOf, ScoreOfGroup, ExactMean, Times;
    assert [x, y][..1] == [x] && [x][..0] == [];
    assert MeanSum([x], grades, true) == Times(GroupOf(grades, x).weight, ScoreOfGroup(GroupOf(grades, x)).score);
    assert Totals([x], grades).weight == GroupOf(grades, x).weight;
  }

  lemma UnitGroup(score: real)
    requires score == 0.0 || score == 0.0001
    ensures ScoreOfGroup(Group(1, 1.0, score)).score == score == Times(1.0, score)
  {
    RoundHalf();
    hide Round4;
    assert ExactMean(Group(1, 1.0, score)) == score;
  }

  lemma TwoMeans(x: string, y: string, grades: seq<Grade>)
    requires GroupOf(grades, x) == Group(1, 1.0, 0.0) && GroupOf(grades, y) == Group(1, 1.0, 0.0001)
    ensures MeanSum([x, y], grades, true) == 0.0001 && Totals([x, y], grades).weight == 2.0
  {
    hide GroupOf, ScoreOfGroup, ExactMean, Times, MeanSum, Totals;
    UnitGroup(0.0);
    UnitGroup(0.0001);
    MeanSumTwo(x, y, grades);
  }

  /** Exact agreement of the reported scores can fail: two categories of weight 1 with scores 0 and 0.0001. */
  lemma ReportedScoresDiffer(a: Grade, b: Grade)
    requires Key(a) != Key(b) && a.weight == 1.0 && b.weight == 1.0 && a.score == 0.0 && b.score == 0.0001
    ensures var grades := [a, b]; var keys := Categories(grades);
      && Sound(grades)
      && ComputeOverallScore(grades) == 0.0
      && Totals(keys, grades).weight == 2.0 && MeanSum(keys, grades, true) / 2.0 == 0.00005
  {
    RoundHalf();
    TwoCategories(a, b);
    hide GroupOf, MeanSum, Totals, TotalWeight, WeightedSum, Categories, Round4, Key;
    TwoMeans(Key(a), Key(b), [a, b]);
    assert 0.0001 / 2.0 == 0.00005;
  }

  // ---------------------------------------------------------------------------------------------
  // The results-only score
  // ---------------------------------------------------------------------------------------------

  /** Not one of the code development categories. */
  predicate IsResult(category: string) {
    !("code dev" <= Lower(category))
  }

  function ResultRows(grades: seq<Grade>): seq<Grade> {
    if grades == [] then []
    else
      var n := |grades| - 1;
      ResultRows(grades[..n]) + if IsResult(grades[n].category) then [grades[n]] else []
  }

  /** `compute_results_only_score` */
  function ComputeResultsOnlyScore(grades: seq<Grade>): real {
    ComputeOverallScore(ResultRows(grades))
  }

  function ResultKeys(keys: seq<string>): seq<string> {
    if keys == [] then []
    else
      var n := |keys| - 1;
      ResultKeys(keys[..n]) + if IsResult(keys[n]) then [keys[n]] else []
  }

  lemma DefaultIsResult()
    ensures IsResult("Uncategorized") && IsResult("")
  {
    assert Lower("Uncategorized")[0] == 'u' && "code dev"[0] == 'c';
  }

  lemma KeyIsResult(g: Grade)
    ensures IsResult(Key(g)) <==> IsResult(g.category)
  {
    DefaultIsResult();
    hide IsResult;
  }

  lemma {:induction false} ResultRowsSound(grades: seq<Grade>)
    requires Sound(grades)
    ensures Sound(ResultRows(grades))
  {
    if grades != [] { ResultRowsSound(grades[..|grades| - 1]); }
  }

  /** A category counts as a whole or not at all. */
  lemma {:induction false} ResultGroup(grades: seq<Grade>, category: string)
    ensures GroupOf(ResultRows(grades), category) == if IsResult(category) then GroupOf(grades, category) else EMPTY
  {
    hide IsResult, Times;
    if grades != [] {
      var n := |grades| - 1;
      var before := ResultRows(grades[..n]);
      ResultGroup(grades[..n], category);
      KeyIsResult(grades[n]);
      assert (before + [grades[n]])[..|before|] == before;
      assert before + [] == before;
    }
  }

  lemma ResultKeysSnoc(keys: seq<string>, key: string)
    ensures ResultKeys(keys + [key]) == ResultKeys(keys) + if IsResult(key) then [key] else []
  {
    hide IsResult;
    assert (keys + [key])[..|keys|] == keys;
  }

  lemma {:induction false} ResultKeysMember(keys: seq<string>, key: string)
    ensures key in ResultKeys(keys) <==> key in keys && IsResult(key)
  {
    hide IsResult;
    if keys != [] {
      var n := |keys| - 1;
      ResultKeysMember(keys[..n], key);
      assert keys == keys[..n] + [keys[n]];
    }
  }

  lemma CategoriesSnoc(grades: seq<Grade>, g: Grade)
    ensures var before := Categories(grades);
      Categories(grades + [g]) == if Key(g) in before then before else before + [Key(g)]
  {
    assert (grades + [g])[..|grades|] == grades;
  }

  /** The categories of the result rows are those of all rows that are no code development. */
  lemma ResultRowsSnoc(grades: seq<Grade>, g: Grade)
    ensures ResultRows(grades + [g]) == ResultRows(grades) + if IsResult(g.category) then [g] else []
  {
    hide IsResult;
    assert (grades + [g])[..|grades|] == grades;
  }

  lemma {:induction false} ResultCategories(grades: seq<Grade>)
    ensures Categories(ResultRows(grades)) == ResultKeys(Categories(grades))
  {
    if grades != [] {
      hide IsResult, Key, Categories, ResultRows, ResultKeys;
      var n := |grades| - 1;
      var g := grades[n];
      var front := grades[..n];
      assert grades == front + [g];
      var before, rows, key := Categories(front), ResultRows(front), Key(g);
      ResultCategories(front);
      KeyIsResult(g);
      CategoriesSnoc(front, g);
      ResultRowsSnoc(front, g);
      ResultKeysSnoc(before, key);
      if IsResult(key) {
        CategoriesSnoc(rows, g);
        ResultKeysMember(before, key);
      } else {
        assert rows + [] == rows && ResultKeys(before) + [] == ResultKeys(before);
      }
    }
  }

  lemma {:induction false} SameGroups(keys: seq<string>, one: seq<Grade>, other: seq<Grade>)
    requires forall i :: 0 <= i < |keys| ==> GroupOf(one, keys[i]) == GroupOf(other, keys[i])
    ensures MeanSum(keys, one, false) == MeanSum(keys, other, false)
    ensures Totals(keys, one) == Totals(keys, other)
  {
    if keys != [] {
      hide GroupOf, Times, ExactMean, ScoreOfGroup;
      SameGroups(keys[..|keys| - 1], one, other);
    }
  }

  /** Means and totals over categories that count are the same in the result rows. */
  lemma ResultMeans(keys: seq<string>, grades: seq<Grade>)
    requires forall i :: 0 <= i < |keys| ==> IsResult(keys[i])
    ensures MeanSum(keys, ResultRows(grades), false) == MeanSum(keys, grades, false)
    ensures Totals(keys, ResultRows(grades)) == Totals(keys, grades)
  {
    hide IsResult, GroupOf, MeanSum, Totals, ResultRows;
    forall i | 0 <= i < |keys| ensures GroupOf(ResultRows(grades), keys[i]) == GroupOf(grades, keys[i]) {
      ResultGroup(grades, keys[i]);
    }
    SameGroups(keys, ResultRows(grades), grades);
  }

  /** The results-only score is the weighted mean of the same category means, without code development. */
  lemma ResultsOnlyExactly(grades: seq<Grade>)
    requires Sound(grades) && ResultRows(grades) != []
    ensures var keys := ResultKeys(Categories(grades));
      && Totals(keys, grades).weight > 0.0
      && ExactOverall(ResultRows(grades)) == MeanSum(keys, grades, false) / Totals(keys, grades).weight
  {
    hide MeanSum, Totals, Categories, ExactOverall, ResultKeys, IsResult, ResultRows;
    var keys := ResultKeys(Categories(grades));
    ResultRowsSound(grades);
    ResultCategories(grades);
    OverallIsMeanOfMeans(ResultRows(grades));
    forall i | 0 <= i < |keys| ensures IsResult(keys[i]) { ResultKeysMember(Categories(grades), keys[i]); }
    ResultMeans(keys, grades);
  }

  // ---------------------------------------------------------------------------------------------
  // The report of a strict review
  // ---------------------------------------------------------------------------------------------

  /** The grades of a strict review are sound, so the results above apply to it. */
  lemma ReviewSound(review: Review, grades: seq<Grade>)
    requires |grades| == |review.leaves|
    requires forall i :: 0 <= i < |review.leaves| ==> grades[i] == StrictGrade(review, review.leaves[i])
    ensures Sound(grades)
  {
    hide StrictGrade;
    forall i | 0 <= i < |grades| ensures grades[i].weight > 0.0 && 0.0 <= grades[i].score <= 1.0 {
      GradeSound(review, review.leaves[i]);
    }
  }

  datatype Report = Report(
    grades: seq<Grade>,
    categories: map<string, CategoryScore>,
    overall: real,
    resultsOnly: real,
    disagreements: seq<Disagreement>,
    disagreementRate: real,
    adjudicatedLeafCount: nat,
    warnings: set<Warning>)

  function Rate(count: nat, all: nat): real {
    if all == 0 then 0.0 else Round4(count as real / all as real)
  }

  /** The scores a strict run reports. */
  method ScoreReport(review: Review) returns (report: Option<Report>)
    ensures report.None? <==> review.responses == []
    ensures report.Some? ==>
      var r, items := report.value, Disagreements(ReviewersOf(review), ThresholdOf(review), review.leaves);
      && |r.grades| == |review.leaves|
      && (forall i :: 0 <= i < |r.grades| ==> r.grades[i] == StrictGrade(review, review.leaves[i]))
      && (forall c :: c in r.categories <==> c in Categories(r.grades))
      && (forall c <- r.categories :: r.categories[c] == ScoreOfGroup(GroupOf(r.grades, c)))
      && r.overall == ComputeOverallScore(r.grades) && r.resultsOnly == ComputeResultsOnlyScore(r.grades)
      && r.disagreements == items && r.disagreementRate == Rate(|items|, |review.leaves|)
      && r.adjudicatedLeafCount == |RulingsOf(review)|
      && (forall w :: w in r.warnings <==> w in ReviewWarnings(review))
  {
    hide StrictGrade, Disagreements, RulingsOf, ReviewWarnings, ComputeOverallScore, ResultRows, Round4, ScoreOfGroup;
    var ok, grades, disagreements, rulings, warnings := ScoreStrict(review);
    if !ok { return None; }
    var order, categories := ComputeCategoryScores(grades);
    report := Some(Report(
      grades, categories, ComputeOverallScore(grades), ComputeResultsOnlyScore(grades), disagreements,
      Rate(|disagreements|, |review.leaves|), |rulings|, set w | w in warnings));
  }

  lemma {:induction false} DisagreementsBounded(reviewers: seq<seq<Grade>>, threshold: real, leaves: seq<Leaf>)
    ensures |Disagreements(reviewers, threshold, leaves)| <= |leaves|
  {
    hide Disagrees;
    if leaves != [] { DisagreementsBounded(reviewers, threshold, leaves[..|leaves| - 1]); }
  }

  lemma MeanInUnit(grades: seq<Grade>)
    requires Sound(grades)
    ensures 0.0 <= ComputeOverallScore(grades) <= 1.0
  {
    hide Round4;
    TotalPositive(grades);
    if grades != [] {
      SumsOrdered(grades);
      UnitQuotient(WeightedSum(grades), TotalWeight(grades));
      Round4Close(ExactOverall(grades));
    }
  }

  lemma {:induction false} SumsOrdered(grades: seq<Grade>)
    requires Sound(grades)
    ensures 0.0 <= WeightedSum(grades) <= TotalWeight(grades)
  {
    if grades != [] {
      var g := grades[|grades| - 1];
      SumsOrdered(grades[..|grades| - 1]);
      PartBounds(g.weight, g.score, Times(g.weight, g.score));
      hide Times;
    }
  }

  /** Overall score, results-only score and disagreement rate of every review are in [0, 1]. */
  lemma ReportInUnit(review: Review, grades: seq<Grade>)
    requires |grades| == |review.leaves|
    requires forall i :: 0 <= i < |review.leaves| ==> grades[i] == StrictGrade(review, review.leaves[i])
    ensures 0.0 <= ComputeOverallScore(grades) <= 1.0 && 0.0 <= ComputeResultsOnlyScore(grades) <= 1.0
    ensures var items := Disagreements(ReviewersOf(review), ThresholdOf(review), review.leaves);
      0.0 <= Rate(|items|, |review.leaves|) <= 1.0
  {
    hide StrictGrade, Sound, ComputeOverallScore, Disagreements, ReviewersOf, ResultRows, Round4;
    ReviewSound(review, grades);
    ResultRowsSound(grades);
    MeanInUnit(grades);
    MeanInUnit(ResultRows(grades));
    DisagreementsBounded(ReviewersOf(review), ThresholdOf(review), review.leaves);
    var items := Disagreements(ReviewersOf(review), ThresholdOf(review), review.leaves);
    if review.leaves != [] {
      UnitQuotient(|items| as real, |review.leaves| as real);
      Round4Close(|items| as real / |review.leaves| as real);
    }
  }
}
