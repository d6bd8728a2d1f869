/**
  What the paired statistics of an ablation compare, stated from the records and the two series directly.
*/
module PairedOutcome {
  import opened Wrappers
  import opened Reals
  import opened PairedStatistics

  // ---------------------------------------------------------------------------------------------
  // The pairs
  // ---------------------------------------------------------------------------------------------

  /** The last record of this task and variant. */
  ghost predicate LastAt(records: seq<Record>, task: string, variant: string, i: nat) {
    && i < |records| && records[i].task == task && records[i].variant == variant
    && forall j :: i < j < |records| ==> records[j].task != task || records[j].variant != variant
  }

  /** The first record of its task. */
  ghost predicate FirstAt(records: seq<Record>, i: nat) {
    i < |records| && forall j :: 0 <= j < i ==> records[j].task != records[i].task
  }

  /** There is a record of both variants. */
  ghost predicate Paired(records: seq<Record>, task: string, ablation: string) {
    && (exists r <- records :: r.task == task && r.variant == "Full")
    && (exists r <- records :: r.task == task && r.variant == ablation)
  }

  /** The pair holds the task's last record of both variants. */
  ghost predicate PairsTask(records: seq<Record>, task: string, ablation: string, pair: Pair) {
    exists i: nat, j: nat ::
      LastAt(records, task, "Full", i) && LastAt(records, task, ablation, j) && pair == Pair(records[i], records[j])
  }

  lemma {:induction false} LastRecordAt(records: seq<Record>, task: string, variant: string) returns (i: nat)
    ensures LastRecord(records, task, variant).Some? <==> exists r <- records :: r.task == task && r.variant == variant
    ensures LastRecord(records, task, variant).Some? ==>
      LastAt(records, task, variant, i) && LastRecord(records, task, variant) == Some(records[i])
  {
    i := 0;
    if records != [] {
      var n := |records| - 1;
      assert records == records[..n] + [records[n]];
      i := LastRecordAt(records[..n], task, variant);
      if records[n].task == task && records[n].variant == variant { i := n; }
    }
  }

  ghost predicate Rising(at: seq<nat>) {
    forall j, k :: 0 <= j < k < |at| ==> at[j] < at[k]
  }

  lemma {:induction false} TasksExact(records: seq<Record>, task: string)
    ensures task in Tasks(records) <==> exists r <- records :: r.task == task
  {
    if records != [] {
      var n := |records| - 1;
      TasksExact(records[..n], task);
      assert records == records[..n] + [records[n]];
    }
  }

  lemma FirstEarlier(records: seq<Record>, i: nat)
    requires i < |records| - 1
    ensures FirstAt(records, i) <==> FirstAt(records[..|records| - 1], i)
  {
  }

  lemma FirstIsNew(records: seq<Record>)
    requires records != []
    ensures var n := |records| - 1; FirstAt(records, n) <==> records[n].task !in Tasks(records[..n])
  {
    var n := |records| - 1;
    TasksExact(records[..n], records[n].task);
    hide Tasks;
    assert forall j :: 0 <= j < n ==> records[..n][j] == records[j] && records[j] in records[..n];
  }

  /** The first record of each task, in the order of the tasks. */
  ghost predicate FirstsOf(records: seq<Record>, tasks: seq<string>, at: seq<nat>) {
    |at| == |tasks| && Rising(at) && forall k :: 0 <= k < |at| ==> FirstAt(records, at[k]) && records[at[k]].task == tasks[k]
  }

  lemma FirstsStay(records: seq<Record>, tasks: seq<string>, at: seq<nat>)
    requires records != [] && FirstsOf(records[..|records| - 1], tasks, at)
    ensures FirstsOf(records, tasks, at) && forall k :: 0 <= k < |at| ==> at[k] < |records| - 1
  {
    forall k | 0 <= k < |at| ensures FirstAt(records, at[k]) && records[at[k]].task == tasks[k] {
      FirstEarlier(records, at[k]);
    }
    hide FirstAt;
  }

  lemma FirstsGrow(records: seq<Record>, tasks: seq<string>, at: seq<nat>)
    requires records != [] && FirstsOf(records[..|records| - 1], tasks, at) && FirstAt(records, |records| - 1)
    ensures FirstsOf(records, tasks + [records[|records| - 1].task], at + [|records| - 1])
  {
    FirstsStay(records, tasks, at);
    hide FirstAt;
  }

  ghost predicate AllFirsts(records: seq<Record>, at: seq<nat>) {
    forall i: nat :: FirstAt(records, i) ==> i in at
  }

  lemma AllFirstsNext(records: seq<Record>, at: seq<nat>)
    requires records != [] && AllFirsts(records[..|records| - 1], at)
    ensures AllFirsts(records, if FirstAt(records, |records| - 1) then at + [|records| - 1] else at)
  {
    var n := |records| - 1;
    forall i: nat | FirstAt(records, i) && i < n ensures i in at {
      FirstEarlier(records, i);
    }
  }

  /** The places where the tasks first appear, in order. */
  lemma {:induction false} TasksAt(records: seq<Record>) returns (at: seq<nat>)
    ensures FirstsOf(records, Tasks(records), at) && AllFirsts(records, at)
  {
    at := [];
    if records != [] {
      var n := |records| - 1;
      var before := TasksAt(records[..n]);
      FirstIsNew(records);
      AllFirstsNext(records, before);
      hide FirstsOf, FirstAt, AllFirsts;
      if records[n].task in Tasks(records[..n]) {
        at := before;
        FirstsStay(records, Tasks(records), at);
      } else {
        at := before + [n];
        FirstsGrow(records, Tasks(records[..n]), before);
      }
    }
  }

  lemma PairIs(records: seq<Record>, task: string, ablation: string)
    ensures var full, other := LastRecord(records, task, "Full"), LastRecord(records, task, ablation);
      && (Paired(records, task, ablation) <==> full.Some? && other.Some?)
      && (Paired(records, task, ablation) ==> PairsTask(records, task, ablation, Pair(full.value, other.value)))
  {
    var i := LastRecordAt(records, task, "Full");
    var j := LastRecordAt(records, task, ablation);
    hide LastRecord, LastAt;
  }

  /** The pairs of the tasks whose first records stand in these places. */
  ghost predicate PairsAt(records: seq<Record>, ablation: string, pairs: seq<Pair>, chosen: seq<nat>) {
    && |chosen| == |pairs| && Rising(chosen)
    && forall k :: 0 <= k < |chosen| ==>
         FirstAt(records, chosen[k]) && PairsTask(records, records[chosen[k]].task, ablation, pairs[k])
  }

  lemma FirstsFront(records: seq<Record>, tasks: seq<string>, at: seq<nat>)
    requires tasks != [] && FirstsOf(records, tasks, at)
    ensures var n := |tasks| - 1;
      && FirstsOf(records, tasks[..n], at[..n])
      && FirstAt(records, at[n]) && records[at[n]].task == tasks[n]
      && (forall i <- at[..n] :: i < at[n])
      && forall i :: i in at <==> i in at[..n] || i == at[n]
  {
    var n := |tasks| - 1;
    hide FirstAt;
    assert at == at[..n] + [at[n]];
  }

  lemma PairsGrow(records: seq<Record>, ablation: string, pairs: seq<Pair>, chosen: seq<nat>, pair: Pair, i: nat)
    requires PairsAt(records, ablation, pairs, chosen) && forall j <- chosen :: j < i
    requires FirstAt(records, i) && PairsTask(records, records[i].task, ablation, pair)
    ensures PairsAt(records, ablation, pairs + [pair], chosen + [i])
  {
    hide FirstAt, PairsTask;
    assert forall k :: 0 <= k < |chosen| ==> chosen[k] in chosen;
  }

  /** Of these places, the ones of tasks with both variants. */
  ghost predicate Chosen(records: seq<Record>, ablation: string, at: seq<nat>, chosen: seq<nat>) {
    && (forall i <- chosen :: i in at)
    && forall i <- at :: i < |records| && (i in chosen <==> Paired(records, records[i].task, ablation))
  }

  lemma ChosenNext(records: seq<Record>, ablation: string, at: seq<nat>, chosen: seq<nat>, i: nat)
    requires Chosen(records, ablation, at, chosen) && i < |records| && i !in at
    ensures Chosen(records, ablation, at + [i],
                   if Paired(records, records[i].task, ablation) then chosen + [i] else chosen)
  {
    hide Paired;
  }

  lemma PairsAmongLast(records: seq<Record>, tasks: seq<string>, ablation: string, n: nat)
    requires |tasks| == n + 1
    ensures var before, pairs := PairsAmong(records, tasks[..n], ablation), PairsAmong(records, tasks, ablation);
      if Paired(records, tasks[n], ablation)
      then exists pair :: pairs == before + [pair] && PairsTask(records, tasks[n], ablation, pair)
      else pairs == before
  {
    PairIs(records, tasks[n], ablation);
    hide PairsTask, Paired, LastRecord;
    var before := PairsAmong(records, tasks[..n], ablation);
    assert before + [] == before;
    if Paired(records, tasks[n], ablation) {
      var pair := Pair(LastRecord(records, tasks[n], "Full").value, LastRecord(records, tasks[n], ablation).value);
      assert PairsAmong(records, tasks, ablation) == before + [pair];
    }
  }

  lemma {:induction false} PairsOver(records: seq<Record>, tasks: seq<string>, at: seq<nat>, ablation: string)
    returns (chosen: seq<nat>)
    requires FirstsOf(records, tasks, at)
    ensures PairsAt(records, ablation, PairsAmong(records, tasks, ablation), chosen)
    ensures Chosen(records, ablation, at, chosen)
  {
    if tasks == [] {
      chosen := [];
    } else {
      var n := |tasks| - 1;
      FirstsFront(records, tasks, at);
      assert at == at[..n] + [at[n]];
      var before := PairsOver(records, tasks[..n], at[..n], ablation);
      PairsAmongLast(records, tasks, ablation, n);
      FirstWithin(records, at[n]);
      assert forall j <- before :: j in at[..n];
      hide PairsTask, Paired, PairsAmong, FirstsOf, FirstAt, PairsAt, Chosen;
      ChosenNext(records, ablation, at[..n], before, at[n]);
      chosen := before;
      if Paired(records, tasks[n], ablation) {
        chosen := before + [at[n]];
        var pairs := PairsAmong(records, tasks[..n], ablation);
        var pair :| PairsAmong(records, tasks, ablation) == pairs + [pair] && PairsTask(records, tasks[n], ablation, pair);
        PairsGrow(records, ablation, pairs, before, pair, at[n]);
      }
    }
  }

  lemma FirstWithin(records: seq<Record>, i: nat)
    requires FirstAt(records, i)
    ensures i < |records|
  {
  }

  /** The pairs, in the order in which their tasks first appear; a task has one if it has both variants. */
  lemma PairsExactly(records: seq<Record>, ablation: string) returns (chosen: seq<nat>)
    ensures PairsAt(records, ablation, PairsAmong(records, Tasks(records), ablation), chosen)
    ensures forall i: nat :: FirstAt(records, i) ==> (i in chosen <==> Paired(records, records[i].task, ablation))
  {
    var at := TasksAt(records);
    chosen := PairsOver(records, Tasks(records), at, ablation);
    hide PairsAmong, Tasks, PairsTask, Paired, PairsAt, FirstsOf;
    forall i: nat | FirstAt(records, i)
      ensures i < |records| && (i in chosen <==> Paired(records, records[i].task, ablation))
    {
      assert i in at;
    }
  }

  // ---------------------------------------------------------------------------------------------
  // The interval
  // ---------------------------------------------------------------------------------------------

  /** The gains of the full series over the other one at the first `k` picked tasks. */
  function GainSum(full: seq<real>, ablation: seq<real>, pick: seq<nat>, k: nat): real
    requires k <= |pick| && forall i :: 0 <= i < |pick| ==> pick[i] < |full| && pick[i] < |ablation|
  {
    if k == 0 then 0.0 else GainSum(full, ablation, pick, k - 1) + (full[pick[k - 1]] - ablation[pick[k - 1]])
  }

  lemma {:induction false} SumLast(xs: seq<real>, x: real)
    ensures Sum(xs + [x]) == Sum(xs) + x
  {
    if xs == [] {
      assert xs + [x] == [x];
      assert Sum([x]) == x + Sum([]);
    } else {
      SumLast(xs[1..], x);
      assert (xs + [x])[1..] == xs[1..] + [x];
    }
  }

  lemma {:induction false} SampleSum(full: seq<real>, ablation: seq<real>, pick: seq<nat>, k: nat)
    requires k <= |pick| && Within(pick, |Differences(full, ablation)|)
    ensures Sum(Resample(Differences(full, ablation), pick)[..k]) == GainSum(full, ablation, pick, k)
  {
    var sample := Resample(Differences(full, ablation), pick);
    if k > 0 {
      SampleSum(full, ablation, pick, k - 1);
      assert sample[..k] == sample[..k - 1] + [sample[k - 1]];
      SumLast(sample[..k - 1], sample[k - 1]);
      hide Sum;
    }
  }

  /** The values the two percentiles are taken of: for each pick its mean gain. */
  lemma MeansExactly(full: seq<real>, ablation: seq<real>, picks: seq<seq<nat>>, n: nat)
    requires n < |picks| && AllWithin(picks, |Differences(full, ablation)|)
    ensures var means := ResampledMeans(Differences(full, ablation), picks);
      |means| == |picks| && means[n] * |picks[n]| as real == GainSum(full, ablation, picks[n], |picks[n]|)
  {
    var sample := Resample(Differences(full, ablation), picks[n]);
    SampleSum(full, ablation, picks[n], |picks[n]|);
    assert sample[..|sample|] == sample;
    hide Sum;
    MeanTimes(Sum(sample), |sample|);
  }

  lemma MeanTimes(sum: real, n: nat)
    requires n > 0
    ensures sum / n as real * n as real == sum
  {
  }

  /** The interval of the method stays within any bounds of the gains at the tasks both series have. */
  lemma IntervalWithinGains(full: seq<real>, ablation: seq<real>, picks: seq<seq<nat>>, low: real, high: real)
    requires picks != [] && AllWithin(picks, |Differences(full, ablation)|)
    requires forall i :: 0 <= i < |full| && i < |ablation| ==> low <= full[i] - ablation[i] <= high
    ensures var means := ResampledMeans(Differences(full, ablation), picks);
      && Percentile(means, 0.025).Value? && Percentile(means, 0.975).Value?
      && low <= Percentile(means, 0.025).value <= Percentile(means, 0.975).value <= high
  {
    BootstrapBounded(Differences(full, ablation), picks, low, high);
  }
}
