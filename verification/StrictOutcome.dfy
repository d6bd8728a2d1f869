/**
  What a strict review of benchmark/arc_bench/adapter.py gives for every leaf, stated from the reviewers' rows
  and the rubric's leaves directly.
*/
module StrictOutcome {
  import opened Wrappers
  import opened Reals
  import opened Texts
  import opened StrictGrading

  // ---------------------------------------------------------------------------------------------
  // One reviewer's grade
  // ---------------------------------------------------------------------------------------------

  /** What a raw score becomes: 0.5 for none, the nearer end outside [0, 1], else the nearest multiple of 0.0001. */
  predicate ScoreOf(raw: RawNumber, score: real) {
    match raw
    case NotNumeric => score == 0.5
    case Numeric(x) =>
      && (x <= 0.0 ==> score == 0.0)
      && (x >= 1.0 ==> score == 1.0)
      && (0.0 <= x <= 1.0 ==> Rounded(x, score))
  }

  /** The even one of two multiples at the same distance. */
  predicate Rounded(x: real, score: real) {
    var n := (score * 10000.0).Floor;
    && score * 10000.0 == n as real
    && -0.5 <= x * 10000.0 - n as real <= 0.5
    && (x * 10000.0 - n as real == 0.5 || x * 10000.0 - n as real == -0.5 ==> n % 2 == 0)
  }

  lemma Units(n: int)
    ensures n as real / 10000.0 * 10000.0 == n as real
  {
  }

  lemma RoundedAt(x: real, score: real, n: int)
    requires score * 10000.0 == n as real && -0.5 <= x * 10000.0 - n as real <= 0.5
    requires x * 10000.0 - n as real == 0.5 || x * 10000.0 - n as real == -0.5 ==> n % 2 == 0
    ensures Rounded(x, score)
  {
    assert (score * 10000.0).Floor == n;
  }

  lemma Round4Rounds(x: real)
    ensures Rounded(x, Round4(x))
  {
    hide Rounded;
    var scaled := x * 10000.0;
    var down := scaled.Floor;
    var rest := scaled - down as real;
    var n := if rest < 0.5 then down
             else if rest > 0.5 then down + 1
             else if down % 2 == 0 then down else down + 1;
    Units(n);
    RoundedAt(x, Round4(x), n);
  }

  /** Such a multiple is determined by the number. */
  lemma RoundedUnique(x: real, a: real, b: real)
    requires Rounded(x, a) && Rounded(x, b)
    ensures a == b
  {
    var n, m := (a * 10000.0).Floor, (b * 10000.0).Floor;
    assert -1.0 <= (n - m) as real <= 1.0;
  }

  lemma EndExactly(end: real, n: int)
    requires (end == 0.0 && n == 0) || (end == 1.0 && n == 10000)
    ensures Round4(end) == end
  {
    assert end * 10000.0 == n as real;
    assert (n as real).Floor == n;
  }

  lemma ScoreExactly(raw: RawNumber)
    ensures ScoreOf(raw, CoerceScore(raw))
  {
    hide Rounded, Round4;
    if raw.Numeric? {
      Round4Rounds(raw.value);
      EndExactly(0.0, 0);
      EndExactly(1.0, 10000);
    }
  }

  /** The last row with this id. */
  ghost predicate LastNamed(rows: seq<Row>, id: string, i: nat) {
    i < |rows| && rows[i].id == id && forall j :: i < j < |rows| ==> rows[j].id != id
  }

  /** The last leaf that carries this id. */
  ghost predicate LastCarrier(leaves: seq<Leaf>, id: string, i: nat) {
    && i < |leaves| && id != "" && leaves[i].id == Some(id)
    && forall j :: i < j < |leaves| ==> leaves[j].id != Some(id)
  }

  lemma {:induction false} LastRowAt(rows: seq<Row>, id: string, i: nat)
    requires LastNamed(rows, id, i)
    ensures LastRow(rows, id) == Some(rows[i])
  {
    if i < |rows| - 1 { LastRowAt(rows[..|rows| - 1], id, i); }
  }

  lemma {:induction false} NoRow(rows: seq<Row>, id: string)
    requires forall row <- rows :: row.id != id
    ensures LastRow(rows, id) == None
  {
    if rows != [] { NoRow(rows[..|rows| - 1], id); }
  }

  lemma {:induction false} LastLeafAt(leaves: seq<Leaf>, id: string, i: nat)
    requires LastCarrier(leaves, id, i)
    ensures LastLeaf(leaves, id) == Some(leaves[i])
  {
    if i < |leaves| - 1 { LastLeafAt(leaves[..|leaves| - 1], id, i); }
  }

  /** A grade that copies these fields of the leaf: positive weights stay and all others count as 1. */
  predicate Copies(grade: Grade, leaf: Leaf) {
    && grade.category == (if leaf.category == "" then "Uncategorized" else leaf.category)
    && grade.fineCategory == leaf.fineCategory && grade.requirements == leaf.requirements
    && grade.weight == if leaf.weight.Numeric? && leaf.weight.value > 0.0 then leaf.weight.value else 1.0
  }

  lemma DescribesCopies(grade: Grade, leaf: Leaf)
    requires Describes(grade, leaf)
    ensures Copies(grade, leaf)
  {
  }

  lemma GradeOfParts(rows: seq<Row>, leaves: seq<Leaf>, round: string, id: string, leaf: Leaf, row: Row)
    requires LastLeaf(leaves, id) == Some(leaf)
    requires LastRow(rows, id) == Some(row) || (LastRow(rows, id) == None && row == UNGRADED)
    ensures var grade := GradeOf(rows, leaves, round, id);
      && grade.id == id && Describes(grade, leaf) && grade.source == Round(round) && grade.reviewerScores == []
      && grade.score == CoerceScore(row.score)
      && grade.reasoning == Strip(row.reasoning) && grade.evidence == Strip(row.evidence)
  {
    hide LastRow, LastLeaf, CoerceScore, CoerceWeight, CategoryOf, Strip, UNGRADED;
  }

  /** A round's grade of a leaf, from the last row about it. */
  lemma GradeOfRow(rows: seq<Row>, leaves: seq<Leaf>, round: string, id: string, r: nat, l: nat)
    requires LastNamed(rows, id, r) && LastCarrier(leaves, id, l)
    ensures var grade := GradeOf(rows, leaves, round, id);
      && grade.id == id && Copies(grade, leaves[l]) && grade.source == Round(round) && grade.reviewerScores == []
      && ScoreOf(rows[r].score, grade.score)
      && grade.reasoning == Strip(rows[r].reasoning) && grade.evidence == Strip(rows[r].evidence)
  {
    LastRowAt(rows, id, r);
    LastLeafAt(leaves, id, l);
    ScoreExactly(rows[r].score);
    hide LastNamed, LastCarrier, LastRow, LastLeaf, CoerceScore, ScoreOf, Strip, GradeOf, Describes, Copies;
    GradeOfParts(rows, leaves, round, id, leaves[l], rows[r]);
    DescribesCopies(GradeOf(rows, leaves, round, id), leaves[l]);
  }

  /** A leaf without a row gets one half and says so. */
  lemma GradeOfNone(rows: seq<Row>, leaves: seq<Leaf>, round: string, id: string, l: nat)
    requires (forall row <- rows :: row.id != id) && LastCarrier(leaves, id, l)
    ensures var grade := GradeOf(rows, leaves, round, id);
      && grade.id == id && Copies(grade, leaves[l]) && grade.source == Round(round) && grade.reviewerScores == []
      && grade.score == 0.5
      && grade.reasoning == Strip("(ungraded; LLM did not return this leaf)") && grade.evidence == Strip("")
  {
    NoRow(rows, id);
    LastLeafAt(leaves, id, l);
    ScoreExactly(Numeric(0.5));
    Half(CoerceScore(Numeric(0.5)));
    hide LastCarrier, LastRow, LastLeaf, CoerceScore, ScoreOf, Strip, GradeOf, Describes, Copies;
    GradeOfParts(rows, leaves, round, id, leaves[l], UNGRADED);
    DescribesCopies(GradeOf(rows, leaves, round, id), leaves[l]);
  }

  lemma Half(score: real)
    requires ScoreOf(Numeric(0.5), score)
    ensures score == 0.5
  {
    var n := (score * 10000.0).Floor;
    assert -0.5 <= 5000.0 - n as real <= 0.5;
  }

  // ---------------------------------------------------------------------------------------------
  // All reviewers together
  // ---------------------------------------------------------------------------------------------

  /** The grade that the r-th reviewer's rows give this id. */
  function GradeBy(review: Review, id: string, r: nat): Grade
    requires r < |review.responses|
  {
    GradeOf(review.responses[r], review.leaves,
            if r == 0 then "reviewer_a" else if r == 1 then "reviewer_b" else "reviewer_c", id)
  }

  /** The sum of the first `k` reviewers' scores. */
  function ReviewerSum(review: Review, id: string, k: nat): real
    requires k <= |review.responses|
  {
    if k == 0 then 0.0 else ReviewerSum(review, id, k - 1) + GradeBy(review, id, k - 1).score
  }

  /** The first three reviewers count. */
  function Reviewers(review: Review): (k: nat)
    ensures k <= 3 && k <= |review.responses| && (k == 3 || k == |review.responses|)
  {
    if |review.responses| <= 3 then |review.responses| else 3
  }

  ghost predicate Carried(review: Review, id: string) {
    id != "" && exists leaf <- review.leaves :: leaf.id == Some(id)
  }

  lemma CarriedIsId(review: Review, id: string)
    ensures id in Ids(review.leaves) <==> Carried(review, id)
  {
    IdsExact(review.leaves, id);
    hide Ids, LastLeaf;
    assert forall leaf <- review.leaves ::
      (HasId(leaf) && leaf.id.value == id) <==> (id != "" && leaf.id == Some(id));
  }

  lemma ReviewerAt(review: Review, id: string, r: nat)
    requires r < Reviewers(review) && Carried(review, id)
    ensures Find(ReviewersOf(review)[r], id) == Some(GradeBy(review, id, r))
  {
    CarriedIsId(review, id);
    hide GradeOf, Ids, Find, ReviewerGrades, Carried;
    FindReviewerGrade(review.responses[r], review.leaves, RoundName(r), id);
  }

  lemma {:induction false} RowsOfAll(reviewers: seq<seq<Grade>>, id: string, rows: seq<Grade>)
    requires |rows| == |reviewers| && forall r :: 0 <= r < |reviewers| ==> Find(reviewers[r], id) == Some(rows[r])
    ensures RowsFor(reviewers, id) == rows
  {
    if reviewers != [] {
      var n := |reviewers| - 1;
      RowsOfAll(reviewers[..n], id, rows[..n]);
      assert rows == rows[..n] + [rows[n]];
    }
  }

  function AllGrades(review: Review, id: string): (grades: seq<Grade>)
    ensures |grades| == Reviewers(review)
  {
    seq(Reviewers(review), r requires 0 <= r < Reviewers(review) => GradeBy(review, id, r))
  }

  lemma RowsAreGrades(review: Review, id: string)
    requires Carried(review, id)
    ensures RowsFor(ReviewersOf(review), id) == AllGrades(review, id)
  {
    hide Find, GradeOf, ReviewerGrades, Carried, RowsFor;
    var reviewers, grades := ReviewersOf(review), AllGrades(review, id);
    forall r | 0 <= r < |reviewers| ensures Find(reviewers[r], id) == Some(grades[r]) { ReviewerAt(review, id, r); }
    RowsOfAll(reviewers, id, grades);
  }

  lemma {:induction false} SumLast(xs: seq<real>, x: real)
    ensures Sum(xs + [x]) == Sum(xs) + x
  {
    if xs == [] {
      assert xs + [x] == [x];
      assert Sum([x]) == x + Sum([]);
    } else {
      SumLast(xs[1..], x);
      assert (xs + [x])[1..] == xs[1..] + [x];
    }
  }

  lemma ScoresLast(grades: seq<Grade>, n: nat)
    requires |grades| == n + 1
    ensures ScoresOf(grades) == ScoresOf(grades[..n]) + [grades[n].score]
  {
  }

  lemma {:induction false} SumIsReviewerSum(review: Review, id: string, grades: seq<Grade>)
    requires |grades| <= |review.responses|
    requires forall r :: 0 <= r < |grades| ==> grades[r] == GradeBy(review, id, r)
    ensures Sum(ScoresOf(grades)) == ReviewerSum(review, id, |grades|)
  {
    hide GradeBy, Sum, ScoresOf;
    if grades != [] {
      var n := |grades| - 1;
      SumIsReviewerSum(review, id, grades[..n]);
      ScoresLast(grades, n);
      SumLast(ScoresOf(grades[..n]), grades[n].score);
    } else {
      NoScores(grades);
    }
  }

  lemma NoScores(grades: seq<Grade>)
    requires grades == []
    ensures Sum(ScoresOf(grades)) == 0.0
  {
  }

  lemma MeanTimes(sum: real, n: nat)
    requires n > 0
    ensures sum / n as real * n as real == sum
  {
  }

  /** Rounding a normalised score again changes nothing. */
  lemma OnGrid(rows: seq<Row>, leaves: seq<Leaf>, round: string, id: string)
    ensures var score := GradeOf(rows, leaves, round, id).score; Round4(score) == score
  {
    hide LastRow, LastLeaf, CoerceScore, Strip, Round4;
    var row := LastRow(rows, id);
    CoerceStays(if row.Some? then row.value.score else UNGRADED.score);
  }

  lemma CoerceStays(raw: RawNumber)
    ensures Round4(CoerceScore(raw)) == CoerceScore(raw)
  {
    var score := CoerceScore(raw);
    if raw.NotNumeric? {
      assert score * 10000.0 == 5000 as real;
      Whole(score, 5000);
    } else {
      var x := if raw.value < 0.0 then 0.0 else if raw.value > 1.0 then 1.0 else raw.value;
      Round4Rounds(x);
      hide Round4;
      Whole(score, (score * 10000.0).Floor);
    }
  }

  lemma Whole(x: real, n: int)
    requires x * 10000.0 == n as real
    ensures Round4(x) == x
  {
    assert (x * 10000.0).Floor == n;
  }

  // ---------------------------------------------------------------------------------------------
  // The combined grade
  // ---------------------------------------------------------------------------------------------

  /** Two of the reviewers are further apart than the threshold, negative ones counting as zero. */
  ghost predicate Contested(review: Review, id: string) {
    exists a, b | 0 <= a < Reviewers(review) && 0 <= b < Reviewers(review) ::
      GradeBy(review, id, a).score - GradeBy(review, id, b).score
      > (if review.threshold <= 0.0 then 0.0 else review.threshold) + 0.000000001
  }

  lemma AllFound(review: Review, id: string)
    requires Carried(review, id)
    ensures forall r :: 0 <= r < Reviewers(review) ==> Find(ReviewersOf(review)[r], id) == Some(GradeBy(review, id, r))
  {
    hide Find, GradeBy, ReviewerGrades, Carried;
    forall r | 0 <= r < Reviewers(review) ensures Find(ReviewersOf(review)[r], id) == Some(GradeBy(review, id, r)) {
      ReviewerAt(review, id, r);
    }
  }

  lemma ContestedIsFarApart(review: Review, id: string)
    requires Carried(review, id)
    ensures Contested(review, id) <==> FarApart(ReviewersOf(review), id, ThresholdOf(review) + TOLERANCE)
  {
    hide GradeBy, Find, Carried, ReviewersOf;
    var reviewers, bound := ReviewersOf(review), ThresholdOf(review) + TOLERANCE;
    AllFound(review, id);
    assert forall r :: 0 <= r < |reviewers| ==>
      Find(reviewers[r], id).Some? && Find(reviewers[r], id).value.score == GradeBy(review, id, r).score;
  }

  lemma CombinedWhen(reviewers: seq<seq<Grade>>, adjudicated: seq<Grade>, leaf: Leaf, id: string, rows: seq<Grade>)
    requires id == IdOf(leaf) && rows == RowsFor(reviewers, id) && rows != []
    ensures var grade, ruling := CombinedGrade(reviewers, adjudicated, leaf), Find(adjudicated, id);
      && grade.reviewerScores == RoundedScores(rows)
      && (ruling.Some? ==> grade == ruling.value.(source := Adjudication, reviewerScores := RoundedScores(rows)))
      && (ruling.None? ==>
            grade == rows[0].(score := Round4(Average(rows)), source := ReviewerAverage,
                              reviewerScores := RoundedScores(rows), reasoning := CombinedReasoning(rows)))
  {
    hide Find, RowsFor, Round4, Average, RoundedScores, CombinedReasoning, IdOf;
  }

  lemma RoundedAreScores(review: Review, id: string)
    ensures var scores := RoundedScores(AllGrades(review, id));
      |scores| == Reviewers(review)
      && forall r :: 0 <= r < Reviewers(review) ==> scores[r] == GradeBy(review, id, r).score
  {
    hide GradeOf, Round4;
    forall r | 0 <= r < Reviewers(review)
      ensures Round4(GradeBy(review, id, r).score) == GradeBy(review, id, r).score
    {
      OnGrid(review.responses[r], review.leaves, RoundName(r), id);
    }
    hide GradeBy;
  }

  /** Every reviewer's score of a leaf with an id is kept beside its combined grade. */
  lemma ReviewerScoresExactly(review: Review, leaf: Leaf)
    requires leaf in review.leaves && leaf.id.Some? && leaf.id.value != "" && review.responses != []
    ensures var scores := StrictGrade(review, leaf).reviewerScores;
      |scores| == Reviewers(review)
      && forall r :: 0 <= r < Reviewers(review) ==> scores[r] == GradeBy(review, leaf.id.value, r).score
  {
    var id := leaf.id.value;
    RowsAreGrades(review, id);
    hide GradeBy, Find, RowsFor, RulingsOf, ReviewersOf, CombinedGrade, RoundedScores;
    CombinedWhen(ReviewersOf(review), RulingsOf(review), leaf, id, AllGrades(review, id));
    RoundedAreScores(review, id);
  }

  lemma MeanIs(review: Review, id: string) returns (mean: real)
    requires review.responses != []
    ensures mean == Average(AllGrades(review, id))
    ensures mean * Reviewers(review) as real == ReviewerSum(review, id, Reviewers(review))
  {
    hide GradeBy, Sum, ReviewerSum;
    var grades := AllGrades(review, id);
    mean := Average(grades);
    SumIsReviewerSum(review, id, grades);
    MeanTimes(Sum(ScoresOf(grades)), Reviewers(review));
  }

  /** The adjudicator rules on the contested leaves. */
  lemma RuledIsContested(review: Review, leaf: Leaf)
    requires leaf in review.leaves && leaf.id.Some? && leaf.id.value != ""
    ensures Find(RulingsOf(review), IdOf(leaf)).Some? <==> Contested(review, leaf.id.value)
  {
    hide Find, RulingsOf, ReviewersOf, Contested, FarApart, Disagrees;
    ContestedIsFarApart(review, leaf.id.value);
    RuledExactly(review, leaf);
    DisagreesIsFarApart(ReviewersOf(review), ThresholdOf(review), leaf.id.value);
  }

  /** A leaf nobody contests has the mean of its reviewers' scores, and the first reviewer's other fields. */
  lemma CombinedIsMean(review: Review, leaf: Leaf) returns (mean: real)
    requires leaf in review.leaves && leaf.id.Some? && leaf.id.value != "" && review.responses != []
    requires !Contested(review, leaf.id.value)
    ensures mean * Reviewers(review) as real == ReviewerSum(review, leaf.id.value, Reviewers(review))
    ensures var grade, first := StrictGrade(review, leaf), GradeBy(review, leaf.id.value, 0);
      && Rounded(mean, grade.score)
      && grade == first.(score := grade.score, source := ReviewerAverage,
                         reviewerScores := grade.reviewerScores, reasoning := grade.reasoning)
  {
    var id := leaf.id.value;
    RowsAreGrades(review, id);
    RuledIsContested(review, leaf);
    mean := MeanIs(review, id);
    Round4Rounds(mean);
    hide GradeBy, Find, RowsFor, Round4, RulingsOf, ReviewersOf, CombinedGrade, Average, Rounded, Contested, ReviewerSum;
    CombinedWhen(ReviewersOf(review), RulingsOf(review), leaf, id, AllGrades(review, id));
  }

  lemma RulingIs(review: Review, id: string)
    ensures var ruling := Find(RulingsOf(review), id);
      ruling.Some? ==> ruling.value == GradeOf(review.ruling, DisputedOf(review), "adjudication", id)
  {
    hide GradeOf, Find, ReviewersOf, Ids, Normalized, Disagreements, DisputedOf;
    FindNormalized(review.ruling, DisputedOf(review), "adjudication", id);
    FindAbsent([], id);
  }

  /** A contested leaf has what the adjudicator's rows say of it. */
  lemma ContestedIsRuled(review: Review, leaf: Leaf)
    requires leaf in review.leaves && leaf.id.Some? && leaf.id.value != "" && Contested(review, leaf.id.value)
    ensures var grade, ruled := StrictGrade(review, leaf), GradeOf(review.ruling, DisputedOf(review), "adjudication", leaf.id.value);
      grade == ruled.(source := Adjudication, reviewerScores := grade.reviewerScores)
  {
    var id := leaf.id.value;
    RowsAreGrades(review, id);
    RuledIsContested(review, leaf);
    RulingIs(review, id);
    assert AllGrades(review, id) != [];
    hide GradeOf, GradeBy, Find, RowsFor, Round4, ReviewersOf, CombinedGrade, Average, Contested, RulingsOf, DisputedOf;
    CombinedWhen(ReviewersOf(review), RulingsOf(review), leaf, id, AllGrades(review, id));
  }

  /** The adjudicated leaves: those whose id is contested. */
  lemma DisputedExactly(review: Review, leaf: Leaf)
    requires leaf.id.Some? && leaf.id.value != ""
    ensures leaf in DisputedOf(review) <==> leaf in review.leaves && Contested(review, leaf.id.value)
  {
    hide Contested, FarApart, Disagrees, Disputed, ReviewersOf, GradeBy;
    DisputedExact(ReviewersOf(review), ThresholdOf(review), review.leaves, review.leaves, leaf);
    DisagreesIsFarApart(ReviewersOf(review), ThresholdOf(review), leaf.id.value);
    if leaf in review.leaves { ContestedIsFarApart(review, leaf.id.value); }
  }

  lemma NoRows(reviewers: seq<seq<Grade>>, threshold: real, id: string)
    requires RowsFor(reviewers, id) == []
    ensures !Disagrees(reviewers, threshold, id)
  {
  }

  /** A leaf whose id no leaf carries is graded by default. */
  lemma DefaultGrade(review: Review, leaf: Leaf)
    requires leaf in review.leaves && !Carried(review, IdOf(leaf))
    ensures var grade := StrictGrade(review, leaf);
      && grade.id == IdOf(leaf) && Copies(grade, leaf) && grade.score == 0.5
      && grade.source == MissingDefault && grade.reviewerScores == [] && grade.evidence == ""
      && grade.reasoning == "No reviewer returned this leaf; defaulted to 0.5."
  {
    var id := IdOf(leaf);
    CarriedIsId(review, id);
    hide GradeOf, Find, RowsFor, Round4, ReviewersOf, CombinedReasoning, FarApart, Disagrees, Ids,
         Normalized, Disagreements, Disputed, Average, RulingsOf, Carried;
    DisagreementHasId(review, id);
    RuledExactly(review, leaf);
    NoRows(ReviewersOf(review), ThresholdOf(review), id);
  }
}
