/**
  The strict grading pipeline of benchmark/arc_bench/adapter.py: normalise each reviewer's rows, find
  disagreements, adjudicate the disputed leaves, combine and aggregate. Scores are exact reals and
  rounding to four places is modelled exactly, ties going to the even neighbour.
*/
module StrictGrading {
  import opened Collections
  import opened Wrappers
  import opened Reals
  import opened Texts
  import opened Integers

  /** A value that float() accepts, or one it rejects. */
  datatype RawNumber = Numeric(value: real) | NotNumeric

  datatype Leaf = Leaf(
    id: Option<string>, category: string, fineCategory: string, weight: RawNumber, requirements: string)

  /** A row of a model response: its stripped id, its score or grade field, its reasoning or reason field. */
  datatype Row = Row(id: string, score: RawNumber, reasoning: string, evidence: string)

  datatype Source = Round(name: string) | Adjudication | ReviewerAverage | MissingDefault

  /** `reviewerScores` is empty until grades are combined. */
  datatype Grade = Grade(
    id: string,
    category: string,
    fineCategory: string,
    weight: real,
    score: real,
    reasoning: string,
    evidence: string,
    requirements: string,
    source: Source,
    reviewerScores: seq<real>)

  datatype Warning =
    | UnknownId(round: string, id: string)
    | MissingGrade(round: string, id: string)
    | InvalidScore(round: string, id: string)
    | Clamped(round: string, id: string, from: real)

  // ---------------------------------------------------------------------------------------------
  // Rounding and coercion
  // ---------------------------------------------------------------------------------------------

  /** round(x, 4) */
  function Round4(x: real): real {
    var scaled := x * 10000.0;
    var down := scaled.Floor;
    var rest := scaled - down as real;
    var n := if rest < 0.5 then down
             else if rest > 0.5 then down + 1
             else if down % 2 == 0 then down else down + 1;
    n as real / 10000.0
  }

  const HALF_UNIT: real := 0.00005

  predicate Near(x: real, y: real, slack: real) {
    x - y <= slack && y - x <= slack
  }

  lemma Round4Close(x: real)
    ensures Near(Round4(x), x, HALF_UNIT)
    ensures 0.0 <= x <= 1.0 ==> 0.0 <= Round4(x) <= 1.0
  {
    var scaled := x * 10000.0;
    var n := (Round4(x) * 10000.0).Floor;
    assert Round4(x) * 10000.0 == n as real;
    assert Near(n as real, scaled, 0.5);
  }

  function CoerceScore(raw: RawNumber): (score: real)
    ensures 0.0 <= score <= 1.0
  {
    match raw
    case NotNumeric => 0.5
    case Numeric(x) =>
      var clamped := if x < 0.0 then 0.0 else if x > 1.0 then 1.0 else x;
      Round4Close(clamped);
      Round4(clamped)
  }

  function CoerceWeight(raw: RawNumber): (weight: real)
    ensures weight > 0.0
  {
    match raw
    case Numeric(x) => if x > 0.0 then x else 1.0
    case NotNumeric => 1.0
  }

  /** str(leaf.get("id")) */
  function IdOf(leaf: Leaf): string {
    if leaf.id.Some? then leaf.id.value else "None"
  }

  predicate HasId(leaf: Leaf) {
    leaf.id.Some? && leaf.id.value != ""
  }

  function CategoryOf(leaf: Leaf): string {
    if leaf.category == "" then "Uncategorized" else leaf.category
  }

  // ---------------------------------------------------------------------------------------------
  // Normalising one round
  // ---------------------------------------------------------------------------------------------

  /** The distinct ids of the leaves that have one, in order of first appearance. */
  function Ids(leaves: seq<Leaf>): seq<string> {
    if leaves == [] then []
    else
      var n := |leaves| - 1;
      var ids := Ids(leaves[..n]);
      if HasId(leaves[n]) && leaves[n].id.value !in ids then ids + [leaves[n].id.value] else ids
  }

  /** Of leaves sharing an id the last one counts. */
  function LastLeaf(leaves: seq<Leaf>, id: string): Option<Leaf> {
    if leaves == [] then None
    else
      var n := |leaves| - 1;
      if HasId(leaves[n]) && leaves[n].id.value == id then Some(leaves[n]) else LastLeaf(leaves[..n], id)
  }

  function LastRow(rows: seq<Row>, id: string): Option<Row> {
    if rows == [] then None
    else if rows[|rows| - 1].id == id then Some(rows[|rows| - 1])
    else LastRow(rows[..|rows| - 1], id)
  }

  /** What stands in for a row the model did not return. */
  const UNGRADED: Row := Row("", Numeric(0.5), "(ungraded; LLM did not return this leaf)", "")

  function RowGrade(id: string, leaf: Leaf, row: Row, round: string): Grade {
    Grade(id, CategoryOf(leaf), leaf.fineCategory, CoerceWeight(leaf.weight), CoerceScore(row.score),
          Strip(row.reasoning), Strip(row.evidence), leaf.requirements, Round(round), [])
  }

  function GradeOf(rows: seq<Row>, leaves: seq<Leaf>, round: string, id: string): Grade {
    var leaf, row := LastLeaf(leaves, id), LastRow(rows, id);
    RowGrade(id,
             if leaf.Some? then leaf.value else Leaf(None, "", "", NotNumeric, ""),
             if row.Some? then row.value else UNGRADED,
             round)
  }

  function Normalized(rows: seq<Row>, leaves: seq<Leaf>, round: string): (grades: seq<Grade>)
    ensures |grades| == |Ids(leaves)|
  {
    seq(|Ids(leaves)|, i requires 0 <= i < |Ids(leaves)| => GradeOf(rows, leaves, round, Ids(leaves)[i]))
  }

  /** The dictionary of leaves by id, with its insertion order. */
  method IndexLeaves(leaves: seq<Leaf>) returns (order: seq<string>, byId: map<string, Leaf>)
    ensures order == Ids(leaves)
    ensures forall id :: id in byId <==> id in order
    ensures forall id :: LastLeaf(leaves, id) == if id in byId then Some(byId[id]) else None
  {
    order, byId := [], map[];
    for i := 0 to |leaves|
      invariant order == Ids(leaves[..i])
      invariant forall id :: id in byId <==> id in order
      invariant forall id :: LastLeaf(leaves[..i], id) == if id in byId then Some(byId[id]) else None
    {
      assert leaves[..i + 1][..i] == leaves[..i];
      if HasId(leaves[i]) {
        var id := leaves[i].id.value;
        if id !in byId { order := order + [id]; }
        byId := byId[id := leaves[i]];
      }
    }
    assert leaves[..|leaves|] == leaves;
  }

  /** One warning for each row that names a leaf nobody asked for, in row order. */
  function UnknownWarnings(rows: seq<Row>, known: set<string>, round: string): seq<Warning> {
    if rows == [] then []
    else
      var n := |rows| - 1;
      var id := rows[n].id;
      UnknownWarnings(rows[..n], known, round) + if id != "" && id !in known then [UnknownId(round, id)] else []
  }

  predicate InUnit(raw: RawNumber) {
    raw.Numeric? && 0.0 <= raw.value <= 1.0
  }

  /** What normalisation had to repair in one leaf's row. */
  function Repairs(row: Option<Row>, round: string, id: string): seq<Warning> {
    match row
    case None => [MissingGrade(round, id)]
    case Some(row) =>
      match row.score
      case NotNumeric => [InvalidScore(round, id)]
      case Numeric(x) => if x < 0.0 || x > 1.0 then [Clamped(round, id, x)] else []
  }

  function LeafWarnings(ids: seq<string>, rows: seq<Row>, round: string): seq<Warning> {
    if ids == [] then []
    else
      var n := |ids| - 1;
      LeafWarnings(ids[..n], rows, round) + Repairs(LastRow(rows, ids[n]), round, ids[n])
  }

  function KnownIds(leaves: seq<Leaf>): set<string> {
    set id | id in Ids(leaves)
  }

  function Warnings(rows: seq<Row>, leaves: seq<Leaf>, round: string): seq<Warning> {
    UnknownWarnings(rows, KnownIds(leaves), round) + LeafWarnings(Ids(leaves), rows, round)
  }

  /** The dictionary of the rows that name a known leaf, and a warning for every other row with an id. */
  method IndexRows(rows: seq<Row>, known: set<string>, round: string)
    returns (byId: map<string, Row>, warnings: seq<Warning>)
    ensures forall id :: id in known && id != "" ==> LastRow(rows, id) == if id in byId then Some(byId[id]) else None
    ensures warnings == UnknownWarnings(rows, known, round)
  {
    byId, warnings := map[], [];
    for i := 0 to |rows|
      invariant forall id :: id in known && id != "" ==>
        LastRow(rows[..i], id) == if id in byId then Some(byId[id]) else None
      invariant warnings == UnknownWarnings(rows[..i], known, round)
    {
      assert rows[..i + 1][..i] == rows[..i];
      var id := rows[i].id;
      if id != "" && id !in known {
        warnings := warnings + [UnknownId(round, id)];
      } else if id != "" {
        byId := byId[id := rows[i]];
      }
    }
    assert rows[..|rows|] == rows;
  }

  /** `normalize_round_grades`, after a list of rows has been found in the response. */
  method NormalizeRoundGrades(rows: seq<Row>, leaves: seq<Leaf>, round: string)
    returns (grades: seq<Grade>, warnings: seq<Warning>)
    ensures grades == Normalized(rows, leaves, round)
    ensures warnings == Warnings(rows, leaves, round)
  {
    hide Ids, LastLeaf, LastRow, CoerceScore, CoerceWeight, RowGrade, UnknownWarnings, Repairs;
    var order, leavesById := IndexLeaves(leaves);
    var rowsById, unknown := IndexRows(rows, leavesById.Keys, round);
    assert leavesById.Keys == KnownIds(leaves);
    grades := [];
    var repairs: seq<Warning> := [];
    for i := 0 to |order|
      invariant grades == Normalized(rows, leaves, round)[..i]
      invariant repairs == LeafWarnings(order[..i], rows, round)
    {
      var id := order[i];
      IdsExact(leaves, id);
      assert order[..i + 1][..i] == order[..i];
      var found := if id in rowsById then Some(rowsById[id]) else None;
      repairs := repairs + Repairs(found, round, id);
      grades := grades + [RowGrade(id, leavesById[id], if found.Some? then found.value else UNGRADED, round)];
    }
    assert order[..|order|] == order;
    warnings := unknown + repairs;
  }

  lemma {:induction false} UnknownSilent(rows: seq<Row>, known: set<string>, round: string)
    ensures UnknownWarnings(rows, known, round) == [] <==> forall row <- rows :: row.id == "" || row.id in known
  {
    if rows != [] {
      var n := |rows| - 1;
      UnknownSilent(rows[..n], known, round);
      assert rows == rows[..n] + [rows[n]];
      assert forall row :: row in rows <==> row in rows[..n] || row == rows[n];
    }
  }

  /** The row of this leaf needs no repair. */
  predicate WellGraded(rows: seq<Row>, id: string) {
    var row := LastRow(rows, id);
    row.Some? && InUnit(row.value.score)
  }

  lemma RepairsSilent(rows: seq<Row>, round: string, id: string)
    ensures Repairs(LastRow(rows, id), round, id) == [] <==> WellGraded(rows, id)
  {
    hide LastRow;
  }

  lemma {:induction false} LeafSilent(ids: seq<string>, rows: seq<Row>, round: string)
    ensures LeafWarnings(ids, rows, round) == [] <==> forall id <- ids :: WellGraded(rows, id)
  {
    if ids != [] {
      hide LastRow, Repairs, WellGraded;
      var n := |ids| - 1;
      LeafSilent(ids[..n], rows, round);
      RepairsSilent(rows, round, ids[n]);
      assert ids == ids[..n] + [ids[n]];
      assert forall id :: id in ids <==> id in ids[..n] || id == ids[n];
    }
  }

  /** The grade is the model's own score, rounded. */
  predicate KeepsScore(rows: seq<Row>, leaves: seq<Leaf>, round: string, id: string) {
    WellGraded(rows, id) && GradeOf(rows, leaves, round, id).score == Round4(LastRow(rows, id).value.score.value)
  }

  lemma WellGradedKept(rows: seq<Row>, leaves: seq<Leaf>, round: string, id: string)
    requires WellGraded(rows, id)
    ensures KeepsScore(rows, leaves, round, id)
  {
    hide LastRow, LastLeaf, Round4;
  }

  /** A round is silent exactly when every row names a leaf and every leaf has a numeric score in [0, 1]. */
  lemma SilentExactly(rows: seq<Row>, leaves: seq<Leaf>, round: string)
    ensures Warnings(rows, leaves, round) == []
       <==> (forall row <- rows :: row.id == "" || row.id in Ids(leaves)) && forall id <- Ids(leaves) :: WellGraded(rows, id)
    ensures Warnings(rows, leaves, round) == [] ==>
      forall id <- Ids(leaves) :: KeepsScore(rows, leaves, round, id)
  {
    hide Ids, WellGraded, UnknownWarnings, LeafWarnings;
    UnknownSilent(rows, KnownIds(leaves), round);
    LeafSilent(Ids(leaves), rows, round);
    hide KeepsScore;
    forall id | id in Ids(leaves) && WellGraded(rows, id) ensures KeepsScore(rows, leaves, round, id) {
      WellGradedKept(rows, leaves, round, id);
    }
  }

  lemma {:induction false} IdsExact(leaves: seq<Leaf>, id: string)
    ensures id in Ids(leaves) <==> exists leaf <- leaves :: HasId(leaf) && leaf.id.value == id
    ensures id in Ids(leaves) <==> LastLeaf(leaves, id).Some?
    ensures id in Ids(leaves) ==> id != ""
  {
    if leaves != [] {
      var n := |leaves| - 1;
      IdsExact(leaves[..n], id);
      assert leaves == leaves[..n] + [leaves[n]];
    }
  }

  lemma GradeOfSound(rows: seq<Row>, leaves: seq<Leaf>, round: string, id: string)
    ensures var grade := GradeOf(rows, leaves, round, id);
      grade.id == id && 0.0 <= grade.score <= 1.0 && grade.weight > 0.0
  {
    hide LastRow, LastLeaf, CoerceScore, CoerceWeight, Strip;
  }

  /** A normalised grade copies everything but the score and the words from its leaf. */
  predicate Describes(grade: Grade, leaf: Leaf) {
    && grade.category == CategoryOf(leaf) && grade.fineCategory == leaf.fineCategory
    && grade.weight == CoerceWeight(leaf.weight) && grade.requirements == leaf.requirements
  }

  lemma GradeOfDescribes(rows: seq<Row>, leaves: seq<Leaf>, round: string, leaf: Leaf)
    requires LastLeaf(leaves, IdOf(leaf)) == Some(leaf)
    ensures Describes(GradeOf(rows, leaves, round, IdOf(leaf)), leaf)
  {
    hide LastRow, LastLeaf, CoerceScore, CoerceWeight, Strip;
  }

  // ---------------------------------------------------------------------------------------------
  // Looking grades up
  // ---------------------------------------------------------------------------------------------

  /** A dictionary keyed by id: the last row of an id counts. */
  function Find(grades: seq<Grade>, id: string): Option<Grade> {
    if grades == [] then None
    else
      var last := grades[|grades| - 1];
      if last.id == id then Some(last) else Find(grades[..|grades| - 1], id)
  }

  /** `order_leaf_grades` */
  function Ordered(grades: seq<Grade>, leaves: seq<Leaf>): seq<Grade> {
    if leaves == [] then []
    else
      var n := |leaves| - 1;
      var found := Find(grades, IdOf(leaves[n]));
      Ordered(grades, leaves[..n]) + if found.Some? then [found.value] else []
  }

  function ReviewerGrades(rows: seq<Row>, leaves: seq<Leaf>, round: string): seq<Grade> {
    Ordered(Normalized(rows, leaves, round), leaves)
  }

  lemma {:induction false} FindAt(grades: seq<Grade>, i: nat)
    requires i < |grades| && forall j, k :: 0 <= j < k < |grades| ==> grades[j].id != grades[k].id
    ensures Find(grades, grades[i].id) == Some(grades[i])
  {
    var n := |grades| - 1;
    if i < n {
      assert grades[i].id != grades[n].id;
      FindAt(grades[..n], i);
    }
  }

  lemma {:induction false} FindAbsent(grades: seq<Grade>, id: string)
    requires forall i :: 0 <= i < |grades| ==> grades[i].id != id
    ensures Find(grades, id) == None
  {
    if grades != [] { FindAbsent(grades[..|grades| - 1], id); }
  }

  lemma {:induction false} FindCarriesId(grades: seq<Grade>, id: string)
    ensures var found := Find(grades, id); found.Some? ==> found.value.id == id && found.value in grades
  {
    if grades != [] && grades[|grades| - 1].id != id { FindCarriesId(grades[..|grades| - 1], id); }
  }

  lemma {:induction false} IdsDistinct(leaves: seq<Leaf>)
    ensures forall j, k :: 0 <= j < k < |Ids(leaves)| ==> Ids(leaves)[j] != Ids(leaves)[k]
  {
    if leaves != [] { IdsDistinct(leaves[..|leaves| - 1]); }
  }

  lemma FindNormalized(rows: seq<Row>, leaves: seq<Leaf>, round: string, id: string)
    ensures Find(Normalized(rows, leaves, round), id)
         == if id in Ids(leaves) then Some(GradeOf(rows, leaves, round, id)) else None
  {
    hide Ids, GradeOf, Find;
    var grades, ids := Normalized(rows, leaves, round), Ids(leaves);
    GradesCarryIds(rows, leaves, round);
    IdsDistinct(leaves);
    if id in ids {
      var i :| 0 <= i < |ids| && ids[i] == id;
      FindAt(grades, i);
    } else {
      FindAbsent(grades, id);
    }
  }

  lemma GradesCarryIds(rows: seq<Row>, leaves: seq<Leaf>, round: string)
    ensures forall i :: 0 <= i < |Ids(leaves)| ==> Normalized(rows, leaves, round)[i].id == Ids(leaves)[i]
  {
  }

  lemma FindSnoc(grades: seq<Grade>, last: Grade, id: string)
    ensures Find(grades + [last], id) == if last.id == id then Some(last) else Find(grades, id)
  {
    assert (grades + [last])[..|grades|] == grades;
  }

  predicate Mentions(leaves: seq<Leaf>, id: string) {
    exists leaf <- leaves :: IdOf(leaf) == id
  }

  lemma MentionsSnoc(leaves: seq<Leaf>, n: nat, id: string)
    requires |leaves| == n + 1
    ensures Mentions(leaves, id) <==> Mentions(leaves[..n], id) || IdOf(leaves[n]) == id
  {
    assert leaves == leaves[..n] + [leaves[n]];
    assert forall leaf :: leaf in leaves <==> leaf in leaves[..n] || leaf == leaves[n];
  }

  lemma {:induction false} FindOrdered(grades: seq<Grade>, leaves: seq<Leaf>, id: string)
    ensures Find(Ordered(grades, leaves), id) == if Mentions(leaves, id) then Find(grades, id) else None
  {
    if leaves != [] {
      var n := |leaves| - 1;
      var before, found := Ordered(grades, leaves[..n]), Find(grades, IdOf(leaves[n]));
      FindOrdered(grades, leaves[..n], id);
      FindCarriesId(grades, IdOf(leaves[n]));
      MentionsSnoc(leaves, n, id);
      hide Find, Mentions;
      if found.Some? {
        FindSnoc(before, found.value, id);
      } else {
        assert before + [] == before;
      }
    }
  }

  /** A reviewer's grade of a leaf is the one normalisation gave it; leaves without an id have none. */
  lemma FindReviewerGrade(rows: seq<Row>, leaves: seq<Leaf>, round: string, id: string)
    ensures Find(ReviewerGrades(rows, leaves, round), id)
         == if id in Ids(leaves) then Some(GradeOf(rows, leaves, round, id)) else None
  {
    hide Find, Ids, Ordered, Normalized, GradeOf;
    FindNormalized(rows, leaves, round, id);
    FindOrdered(Normalized(rows, leaves, round), leaves, id);
    IdsExact(leaves, id);
  }

  // ---------------------------------------------------------------------------------------------
  // Disagreements
  // ---------------------------------------------------------------------------------------------

  /** The reviewers' grades of one leaf, in reviewer order. */
  function RowsFor(reviewers: seq<seq<Grade>>, id: string): seq<Grade> {
    if reviewers == [] then []
    else
      var n := |reviewers| - 1;
      var found := Find(reviewers[n], id);
      RowsFor(reviewers[..n], id) + if found.Some? then [found.value] else []
  }

  method CollectRows(reviewers: seq<seq<Grade>>, id: string) returns (rows: seq<Grade>)
    ensures rows == RowsFor(reviewers, id)
  {
    hide Find;
    rows := [];
    for r := 0 to |reviewers|
      invariant rows == RowsFor(reviewers[..r], id)
    {
      assert reviewers[..r + 1][..r] == reviewers[..r];
      var found := Find(reviewers[r], id);
      if found.Some? { rows := rows + [found.value]; }
    }
    assert reviewers[..|reviewers|] == reviewers;
  }

  function Highest(rows: seq<Grade>): real
    requires rows != []
  {
    if |rows| == 1 then rows[0].score
    else
      var rest := Highest(rows[1..]);
      if rest > rows[0].score then rest else rows[0].score
  }

  function Lowest(rows: seq<Grade>): real
    requires rows != []
  {
    if |rows| == 1 then rows[0].score
    else
      var rest := Lowest(rows[1..]);
      if rest < rows[0].score then rest else rows[0].score
  }

  const TOLERANCE: real := 0.000000001

  predicate Disagrees(reviewers: seq<seq<Grade>>, threshold: real, id: string) {
    |reviewers| >= 2 &&
    var rows := RowsFor(reviewers, id);
    |rows| >= 2 && Highest(rows) - Lowest(rows) > threshold + TOLERANCE
  }

  /** `reviewerRows` has one entry per reviewer, empty where the reviewer has no grade of the leaf. */
  datatype Disagreement = Disagreement(
    leafId: string, delta: real, scores: seq<real>, reviewerRows: seq<Option<Grade>>, requirements: string)

  function RowPerReviewer(reviewers: seq<seq<Grade>>, id: string): seq<Option<Grade>> {
    seq(|reviewers|, r requires 0 <= r < |reviewers| => Find(reviewers[r], id))
  }

  function ScoresOf(rows: seq<Grade>): seq<real> {
    seq(|rows|, i requires 0 <= i < |rows| => rows[i].score)
  }

  function DisagreementOn(reviewers: seq<seq<Grade>>, leaf: Leaf): Disagreement
    requires RowsFor(reviewers, IdOf(leaf)) != []
  {
    var rows := RowsFor(reviewers, IdOf(leaf));
    Disagreement(IdOf(leaf), Round4(Highest(rows) - Lowest(rows)), ScoresOf(rows),
                 RowPerReviewer(reviewers, IdOf(leaf)), leaf.requirements)
  }

  function Disagreements(reviewers: seq<seq<Grade>>, threshold: real, leaves: seq<Leaf>): seq<Disagreement> {
    if leaves == [] then []
    else
      var n := |leaves| - 1;
      var id := IdOf(leaves[n]);
      Disagreements(reviewers, threshold, leaves[..n])
      + if Disagrees(reviewers, threshold, id) then [DisagreementOn(reviewers, leaves[n])] else []
  }

  /** `find_strict_disagreements` */
  method FindStrictDisagreements(reviewers: seq<seq<Grade>>, leaves: seq<Leaf>, threshold: real)
    returns (items: seq<Disagreement>)
    ensures items == Disagreements(reviewers, threshold, leaves)
  {
    items := [];
    if |reviewers| < 2 {
      NoDisagreements(reviewers, threshold, leaves);
      return;
    }
    for i := 0 to |leaves|
      invariant items == Disagreements(reviewers, threshold, leaves[..i])
    {
      assert leaves[..i + 1][..i] == leaves[..i];
      var id := IdOf(leaves[i]);
      var rows := CollectRows(reviewers, id);
      if |rows| >= 2 {
        var delta := Highest(rows) - Lowest(rows);
        if delta > threshold + TOLERANCE {
          items := items + [Disagreement(id, Round4(delta), ScoresOf(rows),
                                         RowPerReviewer(reviewers, id), leaves[i].requirements)];
        }
      }
    }
    assert leaves[..|leaves|] == leaves;
  }

  lemma {:induction false} NoDisagreements(reviewers: seq<seq<Grade>>, threshold: real, leaves: seq<Leaf>)
    requires |reviewers| < 2
    ensures Disagreements(reviewers, threshold, leaves) == []
  {
    if leaves != [] { NoDisagreements(reviewers, threshold, leaves[..|leaves| - 1]); }
  }

  /** Two reviewers graded the leaf more than `bound` apart. */
  ghost predicate FarApart(reviewers: seq<seq<Grade>>, id: string, bound: real) {
    exists a, b | 0 <= a < |reviewers| && 0 <= b < |reviewers| ::
      Find(reviewers[a], id).Some? && Find(reviewers[b], id).Some?
      && Find(reviewers[a], id).value.score - Find(reviewers[b], id).value.score > bound
  }

  lemma {:induction false} RowsForMember(reviewers: seq<seq<Grade>>, id: string, r: nat)
    requires r < |reviewers| && Find(reviewers[r], id).Some?
    ensures Find(reviewers[r], id).value in RowsFor(reviewers, id)
  {
    if r < |reviewers| - 1 { RowsForMember(reviewers[..|reviewers| - 1], id, r); }
  }

  lemma {:induction false} RowsForSource(reviewers: seq<seq<Grade>>, id: string, row: Grade) returns (r: nat)
    requires row in RowsFor(reviewers, id)
    ensures r < |reviewers| && Find(reviewers[r], id) == Some(row)
  {
    var n := |reviewers| - 1;
    if Find(reviewers[n], id) == Some(row) {
      r := n;
    } else {
      r := RowsForSource(reviewers[..n], id, row);
    }
  }

  lemma {:induction false} ExtremesBound(rows: seq<Grade>, row: Grade)
    requires row in rows
    ensures Lowest(rows) <= row.score <= Highest(rows)
  {
    if |rows| > 1 && row != rows[0] { ExtremesBound(rows[1..], row); }
    if |rows| > 1 && row == rows[0] { ExtremesBound(rows[1..], rows[1]); }
  }

  lemma {:induction false} ExtremesAttained(rows: seq<Grade>) returns (high: Grade, low: Grade)
    requires rows != []
    ensures high in rows && high.score == Highest(rows)
    ensures low in rows && low.score == Lowest(rows)
  {
    high, low := rows[0], rows[0];
    if |rows| > 1 {
      var h, l := ExtremesAttained(rows[1..]);
      if h.score > rows[0].score { high := h; }
      if l.score < rows[0].score { low := l; }
    }
  }

  /** Max minus min over the available rows is the largest difference between two reviewers. */
  lemma DisagreesIsFarApart(reviewers: seq<seq<Grade>>, threshold: real, id: string)
    requires threshold >= 0.0
    ensures Disagrees(reviewers, threshold, id) <==> FarApart(reviewers, id, threshold + TOLERANCE)
  {
    hide Find, Highest, Lowest, RowsFor;
    var rows := RowsFor(reviewers, id);
    if Disagrees(reviewers, threshold, id) {
      var high, low := ExtremesAttained(rows);
      var a := RowsForSource(reviewers, id, high);
      var b := RowsForSource(reviewers, id, low);
    }
    if FarApart(reviewers, id, threshold + TOLERANCE) {
      var a, b :| 0 <= a < |reviewers| && 0 <= b < |reviewers|
        && Find(reviewers[a], id).Some? && Find(reviewers[b], id).Some?
        && Find(reviewers[a], id).value.score - Find(reviewers[b], id).value.score > threshold + TOLERANCE;
      RowsForMember(reviewers, id, a);
      RowsForMember(reviewers, id, b);
      var x, y := Find(reviewers[a], id).value, Find(reviewers[b], id).value;
      ExtremesBound(rows, x);
      ExtremesBound(rows, y);
      TwoMembers(rows, x, y);
    }
  }

  // ---------------------------------------------------------------------------------------------
  // Adjudication and combination
  // ---------------------------------------------------------------------------------------------

  /** The leaf selection of `run_strict_adjudication`. */
  function Disputed(reviewers: seq<seq<Grade>>, threshold: real, leaves: seq<Leaf>, all: seq<Leaf>): seq<Leaf> {
    if leaves == [] then []
    else
      var n := |leaves| - 1;
      Disputed(reviewers, threshold, leaves[..n], all)
      + if exists item <- Disagreements(reviewers, threshold, all) :: item.leafId == IdOf(leaves[n])
        then [leaves[n]] else []
  }

  function Average(rows: seq<Grade>): real
    requires rows != []
  {
    Mean(ScoresOf(rows))
  }

  function RoundedScores(rows: seq<Grade>): seq<real> {
    seq(|rows|, i requires 0 <= i < |rows| => Round4(rows[i].score))
  }

  function WordsOf(row: Grade): string {
    Strip(if row.reasoning != "" then row.reasoning else row.evidence)
  }

  function Attributed(position: nat, text: string): string {
    "Reviewer " + Decimal(position) + ": " + text
  }

  /** The reviewers' own words, each under its position among the reviewers that graded the leaf. */
  function ReasoningParts(rows: seq<Grade>): seq<string> {
    if rows == [] then []
    else
      var n := |rows| - 1;
      var text := WordsOf(rows[n]);
      ReasoningParts(rows[..n]) + if text != "" then [Attributed(|rows|, text)] else []
  }

  function Joined(parts: seq<string>): string {
    if parts == [] then ""
    else if |parts| == 1 then parts[0]
    else Joined(parts[..|parts| - 1]) + " | " + parts[|parts| - 1]
  }

  const REASONING_LIMIT: nat := 1600

  /** `combine_reasoning` */
  function CombinedReasoning(rows: seq<Grade>): (text: string)
    ensures |text| <= REASONING_LIMIT
  {
    var all := Joined(ReasoningParts(rows));
    if |all| > REASONING_LIMIT then all[..REASONING_LIMIT] else all
  }

  method CombineReasoning(rows: seq<Grade>) returns (text: string)
    ensures text == CombinedReasoning(rows)
  {
    hide WordsOf, Attributed, Joined;
    var parts: seq<string> := [];
    for i := 0 to |rows|
      invariant parts == ReasoningParts(rows[..i])
    {
      assert rows[..i + 1][..i] == rows[..i];
      var reasoning := WordsOf(rows[i]);
      if reasoning != "" { parts := parts + [Attributed(i + 1, reasoning)]; }
    }
    assert rows[..|rows|] == rows;
    text := Joined(parts);
    if |text| > REASONING_LIMIT { text := text[..REASONING_LIMIT]; }
  }

  function CombinedGrade(reviewers: seq<seq<Grade>>, adjudicated: seq<Grade>, leaf: Leaf): Grade {
    var id := IdOf(leaf);
    var rows := RowsFor(reviewers, id);
    var ruling := Find(adjudicated, id);
    if ruling.Some? then ruling.value.(source := Adjudication, reviewerScores := RoundedScores(rows))
    else if rows != [] then
      rows[0].(score := Round4(Average(rows)), source := ReviewerAverage,
               reviewerScores := RoundedScores(rows), reasoning := CombinedReasoning(rows))
    else
      Grade(id, CategoryOf(leaf), leaf.fineCategory, CoerceWeight(leaf.weight), 0.5,
            "No reviewer returned this leaf; defaulted to 0.5.", "", leaf.requirements, MissingDefault, [])
  }

  /** `combine_strict_reviewer_grades` */
  method CombineStrictReviewerGrades(reviewers: seq<seq<Grade>>, adjudicated: seq<Grade>, leaves: seq<Leaf>)
    returns (combined: seq<Grade>)
    ensures |combined| == |leaves|
    ensures forall i :: 0 <= i < |leaves| ==> combined[i] == CombinedGrade(reviewers, adjudicated, leaves[i])
  {
    hide Find, RowsFor, RoundedScores, CombinedReasoning, Average, Round4;
    combined := [];
    for i := 0 to |leaves|
      invariant |combined| == i
      invariant forall j :: 0 <= j < i ==> combined[j] == CombinedGrade(reviewers, adjudicated, leaves[j])
    {
      var id := IdOf(leaves[i]);
      var rows := CollectRows(reviewers, id);
      var ruling := Find(adjudicated, id);
      var row;
      if ruling.Some? {
        row := ruling.value.(source := Adjudication, reviewerScores := RoundedScores(rows));
      } else if rows != [] {
        var reasoning := CombineReasoning(rows);
        row := rows[0].(score := Round4(Average(rows)), source := ReviewerAverage,
                        reviewerScores := RoundedScores(rows), reasoning := reasoning);
      } else {
        row := Grade(id, CategoryOf(leaves[i]), leaves[i].fineCategory, CoerceWeight(leaves[i].weight), 0.5,
                     "No reviewer returned this leaf; defaulted to 0.5.", "", leaves[i].requirements,
                     MissingDefault, []);
      }
      combined := combined + [row];
    }
  }

  /** All inputs of a strict review: one response per reviewer and the adjudicator's. */
  datatype Review = Review(leaves: seq<Leaf>, responses: seq<seq<Row>>, ruling: seq<Row>, threshold: real)

  /** The clamped disagreement threshold. */
  function ThresholdOf(review: Review): (t: real)
    ensures t >= 0.0
  {
    if review.threshold > 0.0 then review.threshold else 0.0
  }

  /** At most three reviewers are used. */
  function ReviewerCount(review: Review): (n: nat)
    ensures n <= |review.responses|
  {
    if |review.responses| > 3 then 3 else |review.responses|
  }

  function RoundName(r: nat): string {
    if r == 0 then "reviewer_a" else if r == 1 then "reviewer_b" else "reviewer_c"
  }

  function ReviewersOf(review: Review): (reviewers: seq<seq<Grade>>)
    ensures |reviewers| == ReviewerCount(review)
  {
    seq(ReviewerCount(review), r requires 0 <= r < ReviewerCount(review) =>
      ReviewerGrades(review.responses[r], review.leaves, RoundName(r)))
  }

  /** The warnings of the first `n` reviewers, in their order. */
  function ReviewerWarnings(review: Review, n: nat): seq<Warning>
    requires n <= |review.responses|
  {
    if n == 0 then []
    else ReviewerWarnings(review, n - 1) + Warnings(review.responses[n - 1], review.leaves, RoundName(n - 1))
  }

  function DisputedOf(review: Review): seq<Leaf> {
    Disputed(ReviewersOf(review), ThresholdOf(review), review.leaves, review.leaves)
  }

  function RulingsOf(review: Review): seq<Grade> {
    if Disagreements(ReviewersOf(review), ThresholdOf(review), review.leaves) == [] then []
    else Normalized(review.ruling, DisputedOf(review), "adjudication")
  }

  function StrictGrade(review: Review, leaf: Leaf): Grade {
    CombinedGrade(ReviewersOf(review), RulingsOf(review), leaf)
  }

  /** The leaf selection loop of `run_strict_adjudication`. */
  method SelectDisputed(
      disagreements: seq<Disagreement>, ghost reviewers: seq<seq<Grade>>, ghost threshold: real, leaves: seq<Leaf>)
    returns (disputed: seq<Leaf>)
    requires disagreements == Disagreements(reviewers, threshold, leaves)
    ensures disputed == Disputed(reviewers, threshold, leaves, leaves)
  {
    hide Disagreements;
    disputed := [];
    for i := 0 to |leaves|
      invariant disputed == Disputed(reviewers, threshold, leaves[..i], leaves)
    {
      assert leaves[..i + 1][..i] == leaves[..i];
      if exists item <- disagreements :: item.leafId == IdOf(leaves[i]) { disputed := disputed + [leaves[i]]; }
    }
    assert leaves[..|leaves|] == leaves;
  }

  /** Every warning of a review, the adjudicator's last. */
  function ReviewWarnings(review: Review): seq<Warning> {
    ReviewerWarnings(review, ReviewerCount(review))
    + if Disagreements(ReviewersOf(review), ThresholdOf(review), review.leaves) == [] then []
      else Warnings(review.ruling, DisputedOf(review), "adjudication")
  }

  /** The grading part of the strict scoring run; without a reviewer there is no result. */
  method ScoreStrict(review: Review)
    returns (ok: bool, combined: seq<Grade>, disagreements: seq<Disagreement>, rulings: seq<Grade>, warnings: seq<Warning>)
    ensures ok <==> review.responses != []
    ensures ok ==> |combined| == |review.leaves|
    ensures ok ==> forall i :: 0 <= i < |review.leaves| ==> combined[i] == StrictGrade(review, review.leaves[i])
    ensures ok ==> disagreements == Disagreements(ReviewersOf(review), ThresholdOf(review), review.leaves)
    ensures ok ==> rulings == RulingsOf(review) && warnings == ReviewWarnings(review)
  {
    hide Normalized, Warnings, Ordered, Disagreements, Disputed, CombinedGrade;
    var reviewers: seq<seq<Grade>> := [];
    disagreements, combined, rulings, warnings := [], [], [], [];
    ok := review.responses != [];
    if !ok { return; }
    for r := 0 to ReviewerCount(review)
      invariant reviewers == ReviewersOf(review)[..r]
      invariant warnings == ReviewerWarnings(review, r)
    {
      var grades, more := NormalizeRoundGrades(review.responses[r], review.leaves, RoundName(r));
      reviewers := reviewers + [Ordered(grades, review.leaves)];
      warnings := warnings + more;
    }
    assert reviewers == ReviewersOf(review);
    disagreements := FindStrictDisagreements(reviewers, review.leaves, ThresholdOf(review));
    if disagreements != [] {
      var disputed := SelectDisputed(disagreements, reviewers, ThresholdOf(review), review.leaves);
      var more;
      rulings, more := NormalizeRoundGrades(review.ruling, disputed, "adjudication");
      warnings := warnings + more;
    }
    combined := CombineStrictReviewerGrades(reviewers, rulings, review.leaves);
  }

  // ---------------------------------------------------------------------------------------------
  // What every leaf gets
  // ---------------------------------------------------------------------------------------------

  lemma {:induction false} DisagreementsExact(reviewers: seq<seq<Grade>>, threshold: real, leaves: seq<Leaf>, id: string)
    ensures (exists item <- Disagreements(reviewers, threshold, leaves) :: item.leafId == id)
       <==> Disagrees(reviewers, threshold, id) && Mentions(leaves, id)
  {
    hide Disagrees;
    if leaves != [] {
      var n := |leaves| - 1;
      DisagreementsExact(reviewers, threshold, leaves[..n], id);
      MentionsSnoc(leaves, n, id);
      var before, all := Disagreements(reviewers, threshold, leaves[..n]), Disagreements(reviewers, threshold, leaves);
      if Disagrees(reviewers, threshold, IdOf(leaves[n])) {
        assert all == before + [all[|all| - 1]];
        assert forall item :: item in all <==> item in before || item == all[|all| - 1];
      }
    }
  }

  lemma {:induction false} DisputedExact(
      reviewers: seq<seq<Grade>>, threshold: real, leaves: seq<Leaf>, all: seq<Leaf>, leaf: Leaf)
    requires forall l <- leaves :: l in all
    ensures leaf in Disputed(reviewers, threshold, leaves, all)
       <==> leaf in leaves && Disagrees(reviewers, threshold, IdOf(leaf))
  {
    hide Disagrees, Disagreements;
    if leaves != [] {
      var n := |leaves| - 1;
      assert leaves == leaves[..n] + [leaves[n]];
      DisputedExact(reviewers, threshold, leaves[..n], all, leaf);
      DisagreementsExact(reviewers, threshold, all, IdOf(leaves[n]));
    }
  }

  lemma {:induction false} RowsForNone(reviewers: seq<seq<Grade>>, id: string)
    requires forall r :: 0 <= r < |reviewers| ==> Find(reviewers[r], id).None?
    ensures RowsFor(reviewers, id) == []
  {
    if reviewers != [] { RowsForNone(reviewers[..|reviewers| - 1], id); }
  }

  /** Only ids that leaves really carry can be disputed. */
  lemma DisagreementHasId(review: Review, id: string)
    ensures RowsFor(ReviewersOf(review), id) != [] ==> id in Ids(review.leaves)
  {
    hide Find, RowsFor, Ids, ReviewerGrades;
    if id !in Ids(review.leaves) {
      forall r | 0 <= r < ReviewerCount(review) ensures Find(ReviewersOf(review)[r], id).None? {
        FindReviewerGrade(review.responses[r], review.leaves, RoundName(r), id);
      }
      RowsForNone(ReviewersOf(review), id);
    }
  }

  /** The adjudicator rules on exactly the disputed leaves. */
  lemma RuledExactly(review: Review, leaf: Leaf)
    requires leaf in review.leaves
    ensures Find(RulingsOf(review), IdOf(leaf)).Some? <==> Disagrees(ReviewersOf(review), ThresholdOf(review), IdOf(leaf))
  {
    hide Find, Ids, Disputed, Normalized, Disagreements, ReviewersOf;
    var id, reviewers, threshold := IdOf(leaf), ReviewersOf(review), ThresholdOf(review);
    var disputed := DisputedOf(review);
    DisagreementsExact(reviewers, threshold, review.leaves, id);
    FindNormalized(review.ruling, disputed, "adjudication", id);
    FindAbsent([], id);
    IdsExact(disputed, id);
    if Disagrees(reviewers, threshold, id) {
      DisagreementHasId(review, id);
      IdsExact(review.leaves, id);
      var carrier :| carrier in review.leaves && HasId(carrier) && carrier.id.value == id;
      DisputedExact(reviewers, threshold, review.leaves, review.leaves, carrier);
    } else if id in Ids(disputed) {
      var carrier :| carrier in disputed && HasId(carrier) && carrier.id.value == id;
      DisputedExact(reviewers, threshold, review.leaves, review.leaves, carrier);
    }
  }

  /** A leaf is adjudicated exactly when two reviewers differ by more than the threshold and tolerance. */
  lemma AdjudicatedExactly(review: Review, leaf: Leaf)
    requires leaf in review.leaves
    ensures StrictGrade(review, leaf).source == Adjudication
       <==> FarApart(ReviewersOf(review), IdOf(leaf), ThresholdOf(review) + TOLERANCE)
  {
    hide RulingsOf, ReviewersOf, Disagrees, Find, RowsFor, FarApart;
    RuledExactly(review, leaf);
    DisagreesIsFarApart(ReviewersOf(review), ThresholdOf(review), IdOf(leaf));
  }

  lemma AverageBetween(rows: seq<Grade>, low: real, high: real)
    requires rows != [] && forall i :: 0 <= i < |rows| ==> low <= rows[i].score <= high
    ensures low <= Average(rows) <= high
  {
    MeanBounded(ScoresOf(rows), low, high);
  }

  /** Without adjudication the combined score is within the threshold of every reviewer, up to rounding. */
  lemma AgreedIsClose(review: Review, leaf: Leaf, r: nat)
    requires leaf in review.leaves && r < ReviewerCount(review)
    requires StrictGrade(review, leaf).source != Adjudication && IdOf(leaf) in Ids(review.leaves)
    ensures StrictGrade(review, leaf).source == ReviewerAverage
    ensures Near(StrictGrade(review, leaf).score,
                 GradeOf(review.responses[r], review.leaves, RoundName(r), IdOf(leaf)).score,
                 ThresholdOf(review) + TOLERANCE + HALF_UNIT)
  {
    hide RulingsOf, ReviewerGrades, Ids, Find, RowsFor, GradeOf, Round4, Average, Highest, Lowest;
    var id, reviewers := IdOf(leaf), ReviewersOf(review);
    var rows := RowsFor(reviewers, id);
    FindReviewerGrade(review.responses[r], review.leaves, RoundName(r), id);
    RowsForMember(reviewers, id, r);
    RuledExactly(review, leaf);
    var mine := GradeOf(review.responses[r], review.leaves, RoundName(r), id);
    ExtremesBound(rows, mine);
    forall i | 0 <= i < |rows| ensures Lowest(rows) <= rows[i].score <= Highest(rows) { ExtremesBound(rows, rows[i]); }
    AverageBetween(rows, Lowest(rows), Highest(rows));
    Round4Close(Average(rows));
    SpreadOfOne(rows);
    TwoReviewers(reviewers, id);
  }

  lemma SpreadOfOne(rows: seq<Grade>)
    ensures |rows| == 1 ==> Highest(rows) == Lowest(rows)
  {
  }

  lemma {:induction false} TwoReviewers(reviewers: seq<seq<Grade>>, id: string)
    ensures |RowsFor(reviewers, id)| <= |reviewers|
  {
    if reviewers != [] { TwoReviewers(reviewers[..|reviewers| - 1], id); }
  }

  lemma RowsForSound(review: Review, id: string)
    ensures forall row <- RowsFor(ReviewersOf(review), id) :: row.id == id && 0.0 <= row.score <= 1.0 && row.weight > 0.0
  {
    hide Find, RowsFor, Ids, ReviewerGrades, GradeOf;
    forall row | row in RowsFor(ReviewersOf(review), id)
      ensures row.id == id && 0.0 <= row.score <= 1.0 && row.weight > 0.0
    {
      var r := RowsForSource(ReviewersOf(review), id, row);
      FindReviewerGrade(review.responses[r], review.leaves, RoundName(r), id);
      GradeOfSound(review.responses[r], review.leaves, RoundName(r), id);
    }
  }

  /** Every leaf's grade carries its id, a positive weight and a score in [0, 1]. */
  lemma GradeSound(review: Review, leaf: Leaf)
    requires leaf in review.leaves
    ensures var grade := StrictGrade(review, leaf);
      grade.id == IdOf(leaf) && 0.0 <= grade.score <= 1.0 && grade.weight > 0.0
  {
    hide Find, RowsFor, Round4, Average, Ids, Disputed, Disagreements, ReviewersOf, Normalized, GradeOf,
         CombinedReasoning, RoundedScores;
    var id := IdOf(leaf);
    var rows := RowsFor(ReviewersOf(review), id);
    RowsForSound(review, id);
    FindNormalized(review.ruling, DisputedOf(review), "adjudication", id);
    GradeOfSound(review.ruling, DisputedOf(review), "adjudication", id);
    FindAbsent([], id);
    if rows != [] {
      assert forall i :: 0 <= i < |rows| ==> rows[i] in rows;
      AverageBetween(rows, 0.0, 1.0);
      Round4Close(Average(rows));
    }
  }

  ghost predicate UniqueIds(leaves: seq<Leaf>) {
    && (forall leaf <- leaves :: HasId(leaf))
    && forall i, j :: 0 <= i < j < |leaves| ==> IdOf(leaves[i]) != IdOf(leaves[j])
  }

  lemma {:induction false} LastLeafUnique(leaves: seq<Leaf>, leaf: Leaf)
    requires UniqueIds(leaves) && leaf in leaves
    ensures LastLeaf(leaves, IdOf(leaf)) == Some(leaf)
  {
    var n := |leaves| - 1;
    assert leaves == leaves[..n] + [leaves[n]];
    if leaf != leaves[n] {
      var i :| 0 <= i < n && leaves[i] == leaf;
      assert forall l <- leaves[..n] :: l in leaves;
      LastLeafUnique(leaves[..n], leaf);
    }
  }

  /** With unique ids every reviewer's grade of a leaf describes that leaf. */
  lemma RowsForDescribe(review: Review, leaf: Leaf)
    requires UniqueIds(review.leaves) && leaf in review.leaves
    ensures forall row <- RowsFor(ReviewersOf(review), IdOf(leaf)) :: Describes(row, leaf)
  {
    hide Find, RowsFor, Ids, ReviewerGrades, GradeOf, UniqueIds, Describes, LastLeaf;
    var id := IdOf(leaf);
    LastLeafUnique(review.leaves, leaf);
    forall row | row in RowsFor(ReviewersOf(review), id) ensures Describes(row, leaf) {
      var r := RowsForSource(ReviewersOf(review), id, row);
      FindReviewerGrade(review.responses[r], review.leaves, RoundName(r), id);
      GradeOfDescribes(review.responses[r], review.leaves, RoundName(r), leaf);
    }
  }

  lemma SomeRow(review: Review, leaf: Leaf)
    requires UniqueIds(review.leaves) && leaf in review.leaves && review.responses != []
    ensures RowsFor(ReviewersOf(review), IdOf(leaf)) != []
  {
    hide Find, RowsFor, Ids, ReviewerGrades, GradeOf;
    var id := IdOf(leaf);
    IdsExact(review.leaves, id);
    FindReviewerGrade(review.responses[0], review.leaves, RoundName(0), id);
    RowsForMember(ReviewersOf(review), id, 0);
  }

  /** With unique ids and a reviewer, no leaf falls back to the default and each grade describes its own leaf. */
  lemma GradeKeepsLeaf(review: Review, leaf: Leaf)
    requires UniqueIds(review.leaves) && leaf in review.leaves && review.responses != []
    ensures var grade := StrictGrade(review, leaf);
      grade.source != MissingDefault && Describes(grade, leaf)
  {
    hide Find, RowsFor, Round4, Average, Ids, Disputed, Disagreements, Normalized, ReviewersOf, GradeOf, UniqueIds,
         CombinedReasoning, RoundedScores, LastLeaf;
    var id := IdOf(leaf);
    SomeRow(review, leaf);
    RowsForDescribe(review, leaf);
    assert RowsFor(ReviewersOf(review), id)[0] in RowsFor(ReviewersOf(review), id);
    FindNormalized(review.ruling, DisputedOf(review), "adjudication", id);
    FindAbsent([], id);
    DisputedUnique(review, leaf);
    if id in Ids(DisputedOf(review)) { GradeOfDescribes(review.ruling, DisputedOf(review), "adjudication", leaf); }
  }

  lemma {:induction false} LastLeafMember(leaves: seq<Leaf>, id: string)
    ensures var last := LastLeaf(leaves, id); last.Some? ==> last.value in leaves && HasId(last.value) && IdOf(last.value) == id
  {
    if leaves != [] { LastLeafMember(leaves[..|leaves| - 1], id); }
  }

  lemma DisputedUnique(review: Review, leaf: Leaf)
    requires UniqueIds(review.leaves) && leaf in review.leaves
    ensures IdOf(leaf) in Ids(DisputedOf(review)) ==> LastLeaf(DisputedOf(review), IdOf(leaf)) == Some(leaf)
  {
    hide Disputed, Ids, LastLeaf;
    var disputed := DisputedOf(review);
    IdsExact(disputed, IdOf(leaf));
    LastLeafMember(disputed, IdOf(leaf));
    var last := LastLeaf(disputed, IdOf(leaf));
    if last.Some? {
      DisputedExact(ReviewersOf(review), ThresholdOf(review), review.leaves, review.leaves, last.value);
    }
  }

  lemma {:induction false} UniqueCounts(leaves: seq<Leaf>)
    requires UniqueIds(leaves)
    ensures |Ids(leaves)| == |leaves|
  {
    if leaves != [] {
      var n := |leaves| - 1;
      assert forall l <- leaves[..n] :: l in leaves;
      assert HasId(leaves[n]) && leaves[n] in leaves;
      UniqueCounts(leaves[..n]);
      IdsExact(leaves[..n], IdOf(leaves[n]));
    }
  }

  lemma {:induction false} DisputedCounts(
      reviewers: seq<seq<Grade>>, threshold: real, leaves: seq<Leaf>, all: seq<Leaf>)
    requires UniqueIds(leaves) && forall l <- leaves :: l in all
    ensures UniqueIds(Disputed(reviewers, threshold, leaves, all))
    ensures |Disputed(reviewers, threshold, leaves, all)| == |Disagreements(reviewers, threshold, leaves)|
    ensures forall l <- Disputed(reviewers, threshold, leaves, all) :: l in leaves
  {
    hide Disagrees;
    if leaves != [] {
      var n := |leaves| - 1;
      assert leaves == leaves[..n] + [leaves[n]];
      assert forall l <- leaves[..n] :: l in leaves;
      assert leaves[n] in leaves;
      DisputedCounts(reviewers, threshold, leaves[..n], all);
      DisagreementsExact(reviewers, threshold, all, IdOf(leaves[n]));
      assert Mentions(all, IdOf(leaves[n]));
      FreshId(leaves, n, Disputed(reviewers, threshold, leaves[..n], all));
    }
  }

  lemma FreshId(leaves: seq<Leaf>, n: nat, some: seq<Leaf>)
    requires UniqueIds(leaves) && n < |leaves| && UniqueIds(some) && forall l <- some :: l in leaves[..n]
    ensures UniqueIds(some + [leaves[n]])
  {
    var more := some + [leaves[n]];
    assert leaves[n] in leaves;
    forall i | 0 <= i < |some| ensures IdOf(some[i]) != IdOf(leaves[n]) {
      assert some[i] in some;
      var k :| 0 <= k < n && leaves[k] == some[i];
    }
    assert forall l <- more :: l in some || l == leaves[n];
  }

  /** With unique ids there is one ruling for each disagreement. */
  lemma OneRulingEach(review: Review)
    requires UniqueIds(review.leaves)
    ensures |RulingsOf(review)| == |Disagreements(ReviewersOf(review), ThresholdOf(review), review.leaves)|
  {
    hide Disagreements, Disputed, ReviewersOf, UniqueIds, Ids;
    DisputedCounts(ReviewersOf(review), ThresholdOf(review), review.leaves, review.leaves);
    UniqueCounts(DisputedOf(review));
  }
}
