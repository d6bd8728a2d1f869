/**
  What a strict review of benchmark/arc_bench/adapter.py reports beside the grades: disagreements, warnings, the
  combined words and the scores, each stated from the rows, the leaves or the grades directly.
*/
module ReviewOutcome {
  import opened Wrappers
  import opened Reals
  import opened Texts
  import opened Integers
  import opened StrictGrading
  import opened StrictOutcome
  import opened GradeAggregation

  // ---------------------------------------------------------------------------------------------
  // Disagreements
  // ---------------------------------------------------------------------------------------------

  /** No two scores are further apart than these, and the gap is rounded. */
  predicate WidestGap(scores: seq<real>, gap: real, a: nat, b: nat) {
    && a < |scores| && b < |scores| && Rounded(scores[a] - scores[b], gap)
    && forall i :: 0 <= i < |scores| ==> scores[b] <= scores[i] <= scores[a]
  }

  /** What a disagreement reports of a leaf: the widest gap, rounded, and every reviewer's score and grade. */
  ghost predicate Reports(review: Review, leaf: Leaf, item: Disagreement) {
    var id, k := IdOf(leaf), Reviewers(review);
    && item.leafId == id && item.requirements == leaf.requirements
    && |item.scores| == |item.reviewerRows| == k
    && (forall r :: 0 <= r < k ==>
          item.scores[r] == GradeBy(review, id, r).score && item.reviewerRows[r] == Some(GradeBy(review, id, r)))
    && exists a: nat, b: nat :: WidestGap(item.scores, item.delta, a, b)
  }

  lemma Widest(rows: seq<Grade>) returns (a: nat, b: nat)
    requires rows != []
    ensures a < |rows| && b < |rows| && rows[a].score - rows[b].score == Highest(rows) - Lowest(rows)
    ensures forall i :: 0 <= i < |rows| ==> rows[b].score <= rows[i].score <= rows[a].score
  {
    hide Highest, Lowest;
    var high, low := ExtremesAttained(rows);
    a :| a < |rows| && rows[a] == high;
    b :| b < |rows| && rows[b] == low;
    forall i | 0 <= i < |rows| ensures Lowest(rows) <= rows[i].score <= Highest(rows) { ExtremesBound(rows, rows[i]); }
  }

  lemma ItemParts(reviewers: seq<seq<Grade>>, leaf: Leaf, id: string, grades: seq<Grade>)
    requires id == IdOf(leaf) && RowsFor(reviewers, id) == grades != []
    ensures var item := DisagreementOn(reviewers, leaf);
      && item.leafId == id && item.requirements == leaf.requirements
      && item.delta == Round4(Highest(grades) - Lowest(grades))
      && |item.scores| == |grades| && |item.reviewerRows| == |reviewers|
      && (forall r :: 0 <= r < |grades| ==> item.scores[r] == grades[r].score)
      && forall r :: 0 <= r < |reviewers| ==> item.reviewerRows[r] == Find(reviewers[r], id)
  {
    hide Find, RowsFor, Round4, Highest, Lowest, IdOf;
  }

  lemma WidestReported(grades: seq<Grade>, scores: seq<real>, delta: real)
    requires |scores| == |grades| > 0 && forall r :: 0 <= r < |grades| ==> scores[r] == grades[r].score
    requires delta == Round4(Highest(grades) - Lowest(grades))
    ensures exists a: nat, b: nat :: WidestGap(scores, delta, a, b)
  {
    hide Highest, Lowest, Round4, Rounded;
    var a, b := Widest(grades);
    Round4Rounds(scores[a] - scores[b]);
    assert WidestGap(scores, delta, a, b);
  }

  lemma GradesFound(review: Review, id: string)
    requires Carried(review, id)
    ensures |ReviewersOf(review)| == |AllGrades(review, id)| == Reviewers(review)
    ensures RowsFor(ReviewersOf(review), id) == AllGrades(review, id)
    ensures forall r :: 0 <= r < Reviewers(review) ==>
      AllGrades(review, id)[r] == GradeBy(review, id, r) && Find(ReviewersOf(review)[r], id) == Some(GradeBy(review, id, r))
  {
    hide Find, GradeBy, ReviewerGrades, Carried, RowsFor;
    RowsAreGrades(review, id);
    forall r | 0 <= r < Reviewers(review) ensures Find(ReviewersOf(review)[r], id) == Some(GradeBy(review, id, r)) {
      ReviewerAt(review, id, r);
    }
  }

  lemma ItemReports(review: Review, leaf: Leaf)
    requires Carried(review, IdOf(leaf)) && review.responses != []
    ensures RowsFor(ReviewersOf(review), IdOf(leaf)) != []
    ensures Reports(review, leaf, DisagreementOn(ReviewersOf(review), leaf))
  {
    hide GradeBy, Find, ReviewersOf, Highest, Lowest, Round4, WidestGap, Carried, IdOf, RowsFor, AllGrades, DisagreementOn;
    var id, reviewers := IdOf(leaf), ReviewersOf(review);
    var grades := AllGrades(review, id);
    GradesFound(review, id);
    ItemParts(reviewers, leaf, id, grades);
    var item := DisagreementOn(reviewers, leaf);
    WidestReported(grades, item.scores, item.delta);
  }

  lemma DisagreementsLast(reviewers: seq<seq<Grade>>, threshold: real, leaves: seq<Leaf>, n: nat)
    requires |leaves| == n + 1
    ensures Disagreements(reviewers, threshold, leaves)
         == Disagreements(reviewers, threshold, leaves[..n])
          + if Disagrees(reviewers, threshold, IdOf(leaves[n])) then [DisagreementOn(reviewers, leaves[n])] else []
  {
    hide DisagreementOn, IdOf, Highest, Lowest, RowsFor;
  }

  /** The items of these places of the list. */
  ghost predicate ReportedAt(review: Review, leaves: seq<Leaf>, items: seq<Disagreement>, at: seq<nat>) {
    && |at| == |items|
    && (forall i :: 0 <= i < |at| ==> at[i] < |leaves| && Reports(review, leaves[at[i]], items[i]))
    && forall i, j :: 0 <= i < j < |at| ==> at[i] < at[j]
  }

  lemma ReportedNext(review: Review, leaves: seq<Leaf>, items: seq<Disagreement>, at: seq<nat>, item: Disagreement)
    requires leaves != [] && ReportedAt(review, leaves[..|leaves| - 1], items, at)
    ensures ReportedAt(review, leaves, items, at)
    ensures Reports(review, leaves[|leaves| - 1], item) ==>
      ReportedAt(review, leaves, items + [item], at + [|leaves| - 1])
  {
    hide Reports;
    var n := |leaves| - 1;
    assert forall i :: 0 <= i < |at| ==> leaves[..n][at[i]] == leaves[at[i]];
  }

  /** The places of the leaves that are reported as contested, in rubric order. */
  lemma {:induction false} DisagreementsAt(review: Review, leaves: seq<Leaf>) returns (at: seq<nat>)
    requires review.responses != []
    ensures ReportedAt(review, leaves, Disagreements(ReviewersOf(review), ThresholdOf(review), leaves), at)
    ensures forall p: nat :: p < |leaves| ==>
      (p in at <==> Carried(review, IdOf(leaves[p])) && Contested(review, IdOf(leaves[p])))
  {
    hide Reports, Carried, Contested, DisagreementOn, Disagrees, ReviewersOf, IdOf, ThresholdOf;
    if leaves == [] {
      at := [];
    } else {
      hide Disagreements, ReportedAt;
      var n := |leaves| - 1;
      var id, reviewers, threshold := IdOf(leaves[n]), ReviewersOf(review), ThresholdOf(review);
      at := DisagreementsAt(review, leaves[..n]);
      var items := Disagreements(reviewers, threshold, leaves[..n]);
      assert n !in at by { assert ReportedAt(review, leaves[..n], items, at); PlacesWithin(review, leaves[..n], items, at); }
      DisagreesExactly(review, id);
      DisagreementsLast(reviewers, threshold, leaves, n);
      if Disagrees(reviewers, threshold, id) {
        ItemReports(review, leaves[n]);
        ReportedNext(review, leaves, items, at, DisagreementOn(reviewers, leaves[n]));
        at := at + [n];
      } else {
        ReportedNext(review, leaves, items, at, Disagreement("", 0.0, [], [], ""));
        assert items + [] == items;
      }
      assert forall p: nat :: p < n ==> leaves[..n][p] == leaves[p];
    }
  }

  lemma PlacesWithin(review: Review, leaves: seq<Leaf>, items: seq<Disagreement>, at: seq<nat>)
    requires ReportedAt(review, leaves, items, at)
    ensures forall p <- at :: p < |leaves|
  {
    hide Reports;
  }

  lemma DisagreesExactly(review: Review, id: string)
    ensures Disagrees(ReviewersOf(review), ThresholdOf(review), id) <==> Carried(review, id) && Contested(review, id)
  {
    hide Find, Carried, Contested, FarApart, RowsFor, Disagrees, ReviewersOf;
    CarriedIsId(review, id);
    DisagreementHasId(review, id);
    if Carried(review, id) {
      ContestedIsFarApart(review, id);
      DisagreesIsFarApart(ReviewersOf(review), ThresholdOf(review), id);
    } else {
      NoRows(ReviewersOf(review), ThresholdOf(review), id);
    }
  }

  // ---------------------------------------------------------------------------------------------
  // Warnings
  // ---------------------------------------------------------------------------------------------

  /** A row with an id no leaf carries, a leaf without row, and a score that is no number or outside [0, 1]. */
  ghost predicate Warns(rows: seq<Row>, leaves: seq<Leaf>, round: string, w: Warning) {
    && w.round == round && w.id != ""
    && ((exists leaf <- leaves :: leaf.id == Some(w.id)) <==> !w.UnknownId?)
    && match w
       case UnknownId(_, id) => exists row <- rows :: row.id == id
       case MissingGrade(_, id) => forall row <- rows :: row.id != id
       case InvalidScore(_, id) => exists i: nat :: LastNamed(rows, id, i) && rows[i].score == NotNumeric
       case Clamped(_, id, x) => !(0.0 <= x <= 1.0) && exists i: nat :: LastNamed(rows, id, i) && rows[i].score == Numeric(x)
  }

  lemma {:induction false} UnknownMember(rows: seq<Row>, known: set<string>, round: string, w: Warning)
    ensures w in UnknownWarnings(rows, known, round)
       <==> w.UnknownId? && w.round == round && w.id != "" && w.id !in known && exists row <- rows :: row.id == w.id
  {
    if rows != [] {
      var n := |rows| - 1;
      UnknownMember(rows[..n], known, round, w);
      assert rows == rows[..n] + [rows[n]];
    }
  }

  lemma {:induction false} LeafMember(ids: seq<string>, rows: seq<Row>, round: string, w: Warning)
    ensures w in LeafWarnings(ids, rows, round) <==> w.id in ids && w in Repairs(LastRow(rows, w.id), round, w.id)
  {
    hide LastRow;
    if ids != [] {
      var n := |ids| - 1;
      LeafMember(ids[..n], rows, round, w);
      assert ids == ids[..n] + [ids[n]];
      assert forall x <- Repairs(LastRow(rows, ids[n]), round, ids[n]) :: x.id == ids[n];
    }
  }

  lemma {:induction false} LastNamedExists(rows: seq<Row>, id: string) returns (i: nat)
    requires exists row <- rows :: row.id == id
    ensures LastNamed(rows, id, i)
  {
    var n := |rows| - 1;
    if rows[n].id == id {
      i := n;
    } else {
      assert rows == rows[..n] + [rows[n]];
      i := LastNamedExists(rows[..n], id);
    }
  }

  lemma RepairsExactly(rows: seq<Row>, round: string, id: string, w: Warning)
    requires w.id == id
    ensures w in Repairs(LastRow(rows, id), round, id)
       <==> w.round == round && match w
            case UnknownId(_, _) => false
            case MissingGrade(_, _) => forall row <- rows :: row.id != id
            case InvalidScore(_, _) => exists i: nat :: LastNamed(rows, id, i) && rows[i].score == NotNumeric
            case Clamped(_, _, x) =>
              !(0.0 <= x <= 1.0) && exists i: nat :: LastNamed(rows, id, i) && rows[i].score == Numeric(x)
  {
    if exists row <- rows :: row.id == id {
      var last := LastNamedExists(rows, id);
      LastRowAt(rows, id, last);
      hide LastRow;
      assert forall i: nat :: LastNamed(rows, id, i) ==> i == last;
      assert rows[last] in rows;
    } else {
      NoRow(rows, id);
      hide LastRow;
      assert forall i :: 0 <= i < |rows| ==> rows[i] in rows;
    }
  }

  /** The warnings of one round are exactly these. */
  lemma WarningsExactly(rows: seq<Row>, leaves: seq<Leaf>, round: string, w: Warning)
    ensures w in Warnings(rows, leaves, round) <==> Warns(rows, leaves, round, w)
  {
    UnknownMember(rows, KnownIds(leaves), round, w);
    LeafMember(Ids(leaves), rows, round, w);
    IdsExact(leaves, w.id);
    RepairsExactly(rows, round, w.id, w);
    hide LastRow, Ids, LastLeaf, UnknownWarnings, LeafWarnings, Repairs, LastNamed;
    assert w.id in Ids(leaves) <==> w.id != "" && exists leaf <- leaves :: leaf.id == Some(w.id) by {
      assert forall leaf <- leaves :: (HasId(leaf) && leaf.id.value == w.id) <==> (w.id != "" && leaf.id == Some(w.id));
    }
  }

  lemma {:induction false} ReviewerMember(review: Review, n: nat, w: Warning)
    requires n <= |review.responses|
    ensures w in ReviewerWarnings(review, n)
       <==> exists r | 0 <= r < n :: w in Warnings(review.responses[r], review.leaves, RoundName(r))
  {
    hide Warnings, RoundName;
    if n > 0 { ReviewerMember(review, n - 1, w); }
  }

  lemma SomeContested(review: Review)
    requires review.responses != []
    ensures Disagreements(ReviewersOf(review), ThresholdOf(review), review.leaves) == []
       <==> forall leaf <- review.leaves :: !(Carried(review, IdOf(leaf)) && Contested(review, IdOf(leaf)))
  {
    hide Disagreements, ReviewersOf, Carried, Contested, IdOf, Reports;
    var at := DisagreementsAt(review, review.leaves);
    if at != [] {
      assert at[0] in at;
      assert review.leaves[at[0]] in review.leaves;
    }
  }

  /** A review's warnings: those of each reviewer and, if any leaf is contested, the adjudicator's. */
  lemma ReviewWarningsExactly(review: Review, w: Warning)
    requires review.responses != []
    ensures w in ReviewWarnings(review)
       <==> (|| (exists r | 0 <= r < Reviewers(review) ::
                   Warns(review.responses[r], review.leaves,
                         if r == 0 then "reviewer_a" else if r == 1 then "reviewer_b" else "reviewer_c", w))
             || ((exists leaf <- review.leaves :: Carried(review, IdOf(leaf)) && Contested(review, IdOf(leaf)))
                 && Warns(review.ruling, DisputedOf(review), "adjudication", w)))
  {
    hide Warnings, Warns, Carried, Contested, IdOf, DisputedOf, Disagreements, ReviewersOf;
    ReviewerMember(review, Reviewers(review), w);
    SomeContested(review);
    WarningsExactly(review.ruling, DisputedOf(review), "adjudication", w);
    forall r | 0 <= r < Reviewers(review)
      ensures w in Warnings(review.responses[r], review.leaves, RoundName(r))
         <==> Warns(review.responses[r], review.leaves, RoundName(r), w)
    {
      WarningsExactly(review.responses[r], review.leaves, RoundName(r), w);
    }
  }

  // ---------------------------------------------------------------------------------------------
  // The combined words
  // ---------------------------------------------------------------------------------------------

  /** A reviewer's own words: its reasoning, or its evidence where there is none. */
  predicate Says(grade: Grade, words: string) {
    words == Strip(if grade.reasoning == "" then grade.evidence else grade.reasoning)
  }

  /** Cut at 1600 characters. */
  predicate CutTo(text: string, all: string) {
    text == if |all| <= 1600 then all else all[..1600]
  }

  lemma DigitTexts()
    ensures Decimal(1) == "1" && Decimal(2) == "2"
  {
  }

  lemma ReasoningOfOne(a: Grade, first: string)
    requires Says(a, first)
    ensures ReasoningParts([a]) == if first == "" then [] else ["Reviewer 1: " + first]
  {
    hide Strip;
    DigitTexts();
    hide Decimal;
    assert [a][..0] == [];
    assert WordsOf(a) == first;
    assert "Reviewer " + "1" + ": " == "Reviewer 1: ";
  }

  lemma PartsOfTwo(a: Grade, b: Grade, second: string)
    requires Says(b, second)
    ensures ReasoningParts([a, b]) == ReasoningParts([a]) + if second == "" then [] else ["Reviewer 2: " + second]
  {
    hide Strip;
    DigitTexts();
    hide Decimal;
    assert [a, b][..1] == [a];
    assert WordsOf(b) == second;
    assert "Reviewer " + "2" + ": " == "Reviewer 2: ";
    hide ReasoningParts;
    assert ReasoningParts([a, b]) == ReasoningParts([a, b]);
  }

  /** Two reviewers' words stand in order under their own numbers; who says nothing is left out. */
  lemma ReasoningOfTwo(a: Grade, b: Grade, first: string, second: string)
    requires Says(a, first) && Says(b, second)
    ensures CutTo(CombinedReasoning([a, b]),
                  if first == "" && second == "" then ""
                  else if second == "" then "Reviewer 1: " + first
                  else if first == "" then "Reviewer 2: " + second
                  else "Reviewer 1: " + first + " | " + ("Reviewer 2: " + second))
  {
    ReasoningOfOne(a, first);
    PartsOfTwo(a, b, second);
    hide ReasoningParts, Says;
    var one, two := "Reviewer 1: " + first, "Reviewer 2: " + second;
    JoinedFew(one, two);
  }

  lemma JoinedFew(one: string, two: string)
    ensures Joined([]) == "" && Joined([one]) == one && Joined([two]) == two && Joined([one, two]) == one + " | " + two
  {
    assert [one, two][..1] == [one];
  }

  // ---------------------------------------------------------------------------------------------
  // The reported scores
  // ---------------------------------------------------------------------------------------------

  /** The weights of the first `k` grades that are chosen by their category. */
  function Weights(grades: seq<Grade>, chosen: string -> bool, k: nat): real
    requires k <= |grades|
  {
    if k == 0 then 0.0
    else Weights(grades, chosen, k - 1) + if chosen(grades[k - 1].category) then grades[k - 1].weight else 0.0
  }

  /** Their scores, each times its weight. */
  function Points(grades: seq<Grade>, chosen: string -> bool, k: nat): real
    requires k <= |grades|
  {
    if k == 0 then 0.0
    else
      Points(grades, chosen, k - 1)
      + if chosen(grades[k - 1].category) then grades[k - 1].weight * grades[k - 1].score else 0.0
  }

  /** The weighted mean of the chosen grades, rounded, and 0 without any. */
  ghost predicate MeanOf(grades: seq<Grade>, chosen: string -> bool, score: real) {
    var weight, points := Weights(grades, chosen, |grades|), Points(grades, chosen, |grades|);
    if weight == 0.0 then score == 0.0 else exists mean: real :: mean * weight == points && Rounded(mean, score)
  }

  lemma MeanFound(points: real, weight: real)
    requires weight != 0.0
    ensures (points / weight) * weight == points
  {
  }

  lemma {:induction false} WholeSums(grades: seq<Grade>, chosen: string -> bool, k: nat)
    requires k <= |grades| && forall i :: 0 <= i < k ==> chosen(grades[i].category)
    ensures TotalWeight(grades[..k]) == Weights(grades, chosen, k)
    ensures WeightedSum(grades[..k]) == Points(grades, chosen, k)
  {
    if k > 0 {
      WholeSums(grades, chosen, k - 1);
      assert grades[..k][..k - 1] == grades[..k - 1];
    }
  }

  lemma OverallOf(grades: seq<Grade>, all: seq<Grade>, chosen: string -> bool)
    requires Sound(grades)
    requires TotalWeight(grades) == Weights(all, chosen, |all|) && WeightedSum(grades) == Points(all, chosen, |all|)
    ensures MeanOf(all, chosen, ComputeOverallScore(grades))
  {
    hide TotalWeight, WeightedSum, Weights, Points, Rounded, Round4, Sound;
    TotalPositive(grades);
    var weight, points := TotalWeight(grades), WeightedSum(grades);
    if weight > 0.0 {
      MeanFound(points, weight);
      Round4Rounds(points / weight);
    }
  }

  /** The overall score is the weighted mean of all grades. */
  lemma OverallExactly(grades: seq<Grade>)
    requires Sound(grades)
    ensures MeanOf(grades, (category: string) => true, ComputeOverallScore(grades))
  {
    var all := (category: string) => true;
    assert grades[..|grades|] == grades;
    WholeSums(grades, all, |grades|);
    OverallOf(grades, grades, all);
  }

  lemma ResultSumsLast(grades: seq<Grade>, k: nat)
    requires 0 < k <= |grades|
    ensures var front, g := ResultRows(grades[..k - 1]), grades[k - 1];
      var rows, keep := ResultRows(grades[..k]), IsResult(g.category);
      && TotalWeight(rows) == TotalWeight(front) + (if keep then g.weight else 0.0)
      && WeightedSum(rows) == WeightedSum(front) + if keep then g.weight * g.score else 0.0
  {
    hide IsResult, TotalWeight, WeightedSum, ResultRows;
    var front, g := grades[..k - 1], grades[k - 1];
    assert grades[..k] == front + [g];
    ResultRowsSnoc(front, g);
    SumsLast(ResultRows(front), g);
    assert ResultRows(front) + [] == ResultRows(front);
  }

  lemma {:induction false} ResultSums(grades: seq<Grade>, k: nat)
    requires k <= |grades|
    ensures TotalWeight(ResultRows(grades[..k])) == Weights(grades, IsResult, k)
    ensures WeightedSum(ResultRows(grades[..k])) == Points(grades, IsResult, k)
  {
    if k > 0 {
      hide IsResult, TotalWeight, WeightedSum, ResultRows;
      ResultSums(grades, k - 1);
      ResultSumsLast(grades, k);
    }
  }

  lemma SumsLast(grades: seq<Grade>, g: Grade)
    ensures TotalWeight(grades + [g]) == TotalWeight(grades) + g.weight
    ensures WeightedSum(grades + [g]) == WeightedSum(grades) + g.weight * g.score
  {
    assert (grades + [g])[..|grades|] == grades;
  }

  lemma {:induction false} SameChoice(grades: seq<Grade>, one: string -> bool, other: string -> bool, k: nat)
    requires k <= |grades| && forall c :: one(c) == other(c)
    ensures Weights(grades, one, k) == Weights(grades, other, k) && Points(grades, one, k) == Points(grades, other, k)
  {
    if k > 0 { SameChoice(grades, one, other, k - 1); }
  }

  /** The results-only score is that of all grades whose category does not start with "code dev" in any case. */
  lemma ResultsExactly(grades: seq<Grade>)
    requires Sound(grades)
    ensures MeanOf(grades, (category: string) => !("code dev" <= Lower(category)), ComputeResultsOnlyScore(grades))
  {
    var chosen := (category: string) => !("code dev" <= Lower(category));
    assert grades[..|grades|] == grades;
    ResultSums(grades, |grades|);
    ResultRowsSound(grades);
    SameChoice(grades, IsResult, chosen, |grades|);
    hide IsResult, Weights, Points, ResultRows, TotalWeight, WeightedSum, Sound;
    OverallOf(ResultRows(grades), grades, chosen);
  }

  /** The grades of a category, those without one counting as uncategorised. */
  function Belongs(name: string): string -> bool {
    (category: string) => (if category == "" then "Uncategorized" else category) == name
  }

  function Members(grades: seq<Grade>, name: string, k: nat): set<int>
    requires k <= |grades|
  {
    set i | 0 <= i < k && Belongs(name)(grades[i].category)
  }

  lemma KeyBelongs(g: Grade, name: string)
    ensures Belongs(name)(g.category) <==> Key(g) == name
  {
  }

  lemma MembersLast(grades: seq<Grade>, name: string, k: nat)
    requires 0 < k <= |grades|
    ensures |Members(grades, name, k)|
         == |Members(grades, name, k - 1)| + if Belongs(name)(grades[k - 1].category) then 1 else 0
  {
    hide Belongs;
    var before, all := Members(grades, name, k - 1), Members(grades, name, k);
    assert all == if Belongs(name)(grades[k - 1].category) then before + {k - 1} else before;
  }

  lemma GroupLast(grades: seq<Grade>, name: string, k: nat)
    requires 0 < k <= |grades|
    ensures var before, g := GroupOf(grades[..k - 1], name), grades[k - 1];
      GroupOf(grades[..k], name)
      == if Belongs(name)(g.category)
         then Group(before.leafCount + 1, before.weight + g.weight, before.weightedSum + g.weight * g.score)
         else before
  {
    GroupOneMore(grades[..k], k - 1, name);
    KeyBelongs(grades[k - 1], name);
    hide Belongs, GroupOf, Key;
    assert grades[..k][..k - 1] == grades[..k - 1];
  }

  lemma {:induction false} GroupSums(grades: seq<Grade>, name: string, k: nat)
    requires k <= |grades|
    ensures var group := GroupOf(grades[..k], name);
      && group.leafCount == |Members(grades, name, k)|
      && group.weight == Weights(grades, Belongs(name), k)
      && group.weightedSum == Points(grades, Belongs(name), k)
  {
    if k > 0 {
      hide Belongs, GroupOf, Members;
      GroupSums(grades, name, k - 1);
      GroupLast(grades, name, k);
      MembersLast(grades, name, k);
    } else {
      assert Members(grades, name, 0) == {};
      assert grades[..0] == [];
    }
  }

  lemma MeanOfGroup(grades: seq<Grade>, chosen: string -> bool, group: Group)
    requires group.weight == Weights(grades, chosen, |grades|) && group.weightedSum == Points(grades, chosen, |grades|)
    ensures MeanOf(grades, chosen, ScoreOfGroup(group).score)
  {
    hide Weights, Points, Rounded, Round4;
    if group.weight != 0.0 {
      MeanFound(group.weightedSum, group.weight);
      Round4Rounds(group.weightedSum / group.weight);
    }
  }

  /** A category reports the number of its grades, their total weight and their weighted mean, rounded. */
  lemma CategoryExactly(grades: seq<Grade>, name: string)
    ensures var reported := ScoreOfGroup(GroupOf(grades, name));
      && reported.leafCount == |Members(grades, name, |grades|)|
      && Rounded(Weights(grades, Belongs(name), |grades|), reported.weight)
      && MeanOf(grades, Belongs(name), reported.score)
  {
    hide GroupOf, Belongs, Weights, Points, Rounded, Round4, MeanOf, Members, ExactMean;
    assert grades[..|grades|] == grades;
    GroupSums(grades, name, |grades|);
    var group := GroupOf(grades, name);
    Round4Rounds(group.weight);
    MeanOfGroup(grades, Belongs(name), group);
  }

  lemma {:induction false} CategoriesExactly(grades: seq<Grade>, name: string)
    ensures name in Categories(grades) <==> exists g <- grades :: Belongs(name)(g.category)
  {
    if grades != [] {
      var n := |grades| - 1;
      CategoriesExactly(grades[..n], name);
      assert grades == grades[..n] + [grades[n]];
      KeyBelongs(grades[n], name);
      hide Belongs, Key;
    }
  }

  /** The disagreement rate is the share of the leaves in dispute, rounded. */
  lemma RateExactly(count: nat, leaves: nat) returns (share: real)
    ensures leaves == 0 ==> Rate(count, leaves) == 0.0
    ensures leaves > 0 ==> share * leaves as real == count as real && Rounded(share, Rate(count, leaves))
  {
    hide Round4, Rounded;
    share := 0.0;
    if leaves > 0 {
      share := count as real / leaves as real;
      MeanFound(count as real, leaves as real);
      Round4Rounds(share);
    }
  }

  /** The ids in dispute. */
  ghost function ContestedIds(review: Review): set<string> {
    set leaf <- review.leaves | leaf.id.Some? && leaf.id.value != "" && Contested(review, leaf.id.value) :: leaf.id.value
  }

  lemma {:induction false} DistinctCount(ids: seq<string>)
    requires forall i, j :: 0 <= i < j < |ids| ==> ids[i] != ids[j]
    ensures var all := set id <- ids; |all| == |ids|
  {
    if ids != [] {
      var n := |ids| - 1;
      DistinctCount(ids[..n]);
      assert ids == ids[..n] + [ids[n]];
      assert (set id <- ids) == (set id <- ids[..n]) + {ids[n]};
    }
  }

  lemma CarrierNamed(review: Review, leaf: Leaf)
    requires leaf in review.leaves && leaf.id.Some? && leaf.id.value != ""
    ensures IdOf(leaf) == leaf.id.value && Carried(review, leaf.id.value)
  {
  }

  /** There is one ruling for each id in dispute. */
  lemma RulingsCount(review: Review)
    requires review.responses != []
    ensures |RulingsOf(review)| == |ContestedIds(review)|
  {
    hide Contested, Disagreements, ReviewersOf, DisputedOf, Ids, LastLeaf, GradeOf, Carried, IdOf;
    SomeContested(review);
    if Disagreements(ReviewersOf(review), ThresholdOf(review), review.leaves) == [] {
      forall leaf | leaf in review.leaves && leaf.id.Some? && leaf.id.value != "" && Contested(review, leaf.id.value)
        ensures false
      {
        CarrierNamed(review, leaf);
      }
      assert ContestedIds(review) == {};
    } else {
      var ids := Ids(DisputedOf(review));
      forall id ensures id in ids <==> id in ContestedIds(review) { DisputedIds(review, id); }
      IdsDistinct(DisputedOf(review));
      DistinctCount(ids);
      assert (set id <- ids) == ContestedIds(review);
    }
  }

  lemma DisputedIds(review: Review, id: string)
    ensures id in Ids(DisputedOf(review)) <==> id in ContestedIds(review)
  {
    hide Contested, DisputedOf, Ids, LastLeaf;
    IdsExact(DisputedOf(review), id);
    forall leaf: Leaf | leaf.id.Some? && leaf.id.value != ""
      ensures leaf in DisputedOf(review) <==> leaf in review.leaves && Contested(review, leaf.id.value)
    {
      DisputedExactly(review, leaf);
    }
  }
}
