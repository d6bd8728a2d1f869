/**
  Progress of the parallel batch controller: every schedule is bounded, and a schedule can be completed, and
  a waiting worker started, exactly as long as exceptions leave it possible.
*/
module BatchProgress {
  import opened Topics
  import opened BatchController

  // ---------------------------------------------------------------------------------------------
  // Progress
  // ---------------------------------------------------------------------------------------------

  /** An upper bound on the number of actions still to come. */
  function Measure(cfg: Config, s: System): int {
    One(s.dirty) +
    match s.control
    case Planning(n) => 10 * (|cfg.topics| - n) + 8 * |s.scheduled| + 2
    case Collecting => Tally(Steps, s.phases) + 1
    case Stopped => Tally(Steps, s.phases)
    case Finished => 0
  }

  lemma StepDecreases(cfg: Config, s: System, a: Action)
    requires Inv(cfg, s) && Apply(cfg, s, a).Some?
    ensures 0 <= Measure(cfg, Apply(cfg, s, a).value) < Measure(cfg, s)
  {
    if Pooled(a) {
      PooledDecreases(cfg, s, a);
    } else {
      ControllerDecreases(cfg, s, a);
    }
  }

  lemma PooledDecreases(cfg: Config, s: System, a: Action)
    requires Pooled(a) && Inv(cfg, s) && Apply(cfg, s, a).Some?
    ensures 0 <= Measure(cfg, Apply(cfg, s, a).value) < Measure(cfg, s)
  {
    PooledKeepsInv(cfg, s, a);
    PooledShape(cfg, s, a);
    hide Inv, Tally, Apply, Moves;
  }

  lemma ControllerDecreases(cfg: Config, s: System, a: Action)
    requires !Pooled(a) && Inv(cfg, s) && Apply(cfg, s, a).Some?
    ensures 0 <= Measure(cfg, Apply(cfg, s, a).value) < Measure(cfg, s)
  {
    hide Image, ExitCode, Tally, TasksOf, Decide, PoolInv;
    if a.Receive? {
      TallyUpdate(Steps, s.phases, a.task, Received);
    } else if a.Submit? {
      WaitingTally(Steps, |s.scheduled|);
    }
  }

  /** Termination: no schedule has more than 10 actions per topic, and two more. */
  lemma {:induction false} SchedulesBounded(cfg: Config, actions: seq<Action>)
    requires Distinct(cfg.topics) && Exec(cfg, actions).Some?
    ensures |actions| + Measure(cfg, Exec(cfg, actions).value) <= 10 * |cfg.topics| + 2
    ensures |actions| <= 10 * |cfg.topics| + 2
  {
    hide Tally;
    if actions != [] {
      var n := |actions| - 1;
      SchedulesBounded(cfg, actions[..n]);
      ReachableInv(cfg, actions[..n]);
      StepDecreases(cfg, Exec(cfg, actions[..n]).value, actions[n]);
    }
  }

  /** Slots are out with threads or lost, and a thread just launched holds none. */
  lemma {:induction false} HeldWithinPool(phases: seq<Phase>, k: nat)
    requires k < |phases| ==> phases[k] == Launched
    ensures Tally(Slots, phases) + One(k < |phases|) <= Tally(Threads, phases) + Tally(Lost, phases)
    ensures Tally(Lost, phases) <= Tally(Slots, phases)
  {
    if phases != [] { HeldWithinPool(phases[1..], if k == 0 then |phases| else k - 1); }
  }

  /** A worker waits for a progress slot only after another one has raised and kept its slot. */
  lemma GetNeverBlocks(cfg: Config, s: System, k: nat)
    requires Inv(cfg, s) && cfg.progress && Enters(s, k, Launched)
    ensures |s.free| + Tally(Lost, s.phases) > 0
    ensures |s.free| + Tally(Slots, s.phases) == cfg.jobs
  {
    hide Tally;
    HeldWithinPool(s.phases, k);
  }

  lemma {:induction false} NoneLost(phases: seq<Phase>)
    requires NoneRaised(phases)
    ensures Tally(Lost, phases) == 0
  {
    if phases != [] { NoneLost(phases[1..]); }
  }

  lemma {:induction false} IdlePool(phases: seq<Phase>)
    requires forall k :: 0 <= k < |phases| ==> phases[k] == Waiting || phases[k] == Received
    ensures Tally(Threads, phases) == 0
  {
    if phases != [] { IdlePool(phases[1..]); }
  }

  /** No deadlock: where nothing has raised, an unfinished system has an enabled action other than raising. */
  lemma SomeActionEnabled(cfg: Config, s: System) returns (a: Action)
    requires Inv(cfg, s) && cfg.jobs >= 1 && s.control != Finished && NoneRaised(s.phases)
    ensures Apply(cfg, s, a).Some? && !a.Raise?
  {
    hide Image, ExitCode, Tally, TasksOf, Decide;
    if s.dirty {
      a := Save;
    } else if s.control.Planning? {
      a := if s.control.next < |cfg.topics| then Plan else Submit;
    } else if exists k :: 0 <= k < |s.phases| && s.phases[k] != Waiting && s.phases[k] != Received {
      var k: nat :| k < |s.phases| && s.phases[k] != Waiting && s.phases[k] != Received;
      match s.phases[k]
      case Launched =>
        if cfg.progress {
          GetNeverBlocks(cfg, s, k);
          NoneLost(s.phases);
        }
        a := Acquire(k);
      case Holding(_) => a := Release(k);
      case Unslotted => a := Release(k);
      case Released => a := Complete(k);
      case Done => a := Receive(k);
    } else {
      IdlePool(s.phases);
      if k: nat :| k < |s.phases| && s.phases[k] == Waiting {
        a := Launch(k);
      } else {
        a := Finish;
      }
    }
  }

  lemma StepRaises(cfg: Config, s: System, a: Action)
    requires Apply(cfg, s, a).Some?
    ensures NoneRaised(s.phases) && !a.Raise? ==> NoneRaised(Apply(cfg, s, a).value.phases)
    ensures Running(s) ==>
      |Apply(cfg, s, a).value.phases| == |s.phases|
      && forall k :: 0 <= k < |s.phases| && s.phases[k].Raised? ==> Apply(cfg, s, a).value.phases[k] == s.phases[k]
    ensures Running(s) ==> Running(Apply(cfg, s, a).value) || a == Finish
  {
    hide Tally, Decide;
  }

  lemma ExecSnoc(cfg: Config, actions: seq<Action>, a: Action)
    requires Exec(cfg, actions).Some?
    ensures Exec(cfg, actions + [a]) == Apply(cfg, Exec(cfg, actions).value, a)
  {
    hide Apply;
    assert (actions + [a])[..|actions|] == actions;
  }

  /** Where nothing has raised, the schedule can be completed. */
  lemma RunToEnd(cfg: Config, actions: seq<Action>) returns (more: seq<Action>)
    requires Distinct(cfg.topics) && cfg.jobs >= 1 && Exec(cfg, actions).Some?
    requires NoneRaised(Exec(cfg, actions).value.phases)
    ensures Exec(cfg, actions + more).Some? && Exec(cfg, actions + more).value.control == Finished
    decreases 10 * |cfg.topics| + 2 - |actions|
  {
    hide Exec, Apply, Inv, Distinct;
    var s := Exec(cfg, actions).value;
    if s.control == Finished {
      more := [];
      assert actions + [] == actions;
    } else {
      ReachableInv(cfg, actions);
      var a := SomeActionEnabled(cfg, s);
      ExecSnoc(cfg, actions, a);
      StepRaises(cfg, s, a);
      SchedulesBounded(cfg, actions + [a]);
      var rest := RunToEnd(cfg, actions + [a]);
      more := [a] + rest;
      assert actions + [a] + rest == actions + more;
    }
  }

  /** What has raised stays so, and a run in which something has raised never finishes. */
  lemma {:induction false} RaisedStays(cfg: Config, actions: seq<Action>, more: seq<Action>)
    requires Distinct(cfg.topics) && Exec(cfg, actions).Some? && Exec(cfg, actions + more).Some?
    requires !NoneRaised(Exec(cfg, actions).value.phases)
    ensures var s, s' := Exec(cfg, actions).value, Exec(cfg, actions + more).value;
      && Running(s) && Running(s') && |s'.phases| == |s.phases|
      && forall k :: 0 <= k < |s.phases| && s.phases[k].Raised? ==> s'.phases[k] == s.phases[k]
    decreases |more|
  {
    hide Exec, Apply, StateInv, PoolInv;
    var s := Exec(cfg, actions).value;
    ReachableInv(cfg, actions);
    if more == [] {
      assert actions + more == actions;
    } else {
      var n := |more| - 1;
      var before := actions + more[..n];
      ExecFront(cfg, actions + more);
      assert (actions + more)[..|actions + more| - 1] == before;
      RaisedStays(cfg, actions, more[..n]);
      StepRaises(cfg, Exec(cfg, before).value, more[n]);
      ReachableInv(cfg, actions + more);
    }
  }

  lemma ExecFront(cfg: Config, actions: seq<Action>)
    requires actions != [] && Exec(cfg, actions).Some?
    ensures var n := |actions| - 1;
      Exec(cfg, actions[..n]).Some? && Apply(cfg, Exec(cfg, actions[..n]).value, actions[n]) == Exec(cfg, actions)
  {
    hide Apply;
  }

  ghost predicate CanFinish(cfg: Config, actions: seq<Action>) {
    exists more :: Exec(cfg, actions + more).Some? && Exec(cfg, actions + more).value.control == Finished
  }

  /** A schedule extends to a finished one exactly when no worker has raised. */
  lemma FinishableExactly(cfg: Config, actions: seq<Action>)
    requires Distinct(cfg.topics) && cfg.jobs >= 1 && Exec(cfg, actions).Some?
    ensures CanFinish(cfg, actions) <==> NoneRaised(Exec(cfg, actions).value.phases)
  {
    hide Exec, Distinct, NoneRaised;
    if NoneRaised(Exec(cfg, actions).value.phases) {
      var more := RunToEnd(cfg, actions);
    } else if CanFinish(cfg, actions) {
      var more :| Exec(cfg, actions + more).Some? && Exec(cfg, actions + more).value.control == Finished;
      RaisedStays(cfg, actions, more);
    }
  }

  /** The task can get past the wait for a slot. */
  ghost predicate CanStart(cfg: Config, actions: seq<Action>, k: nat) {
    exists more :: Exec(cfg, actions + more).Some? && Started(Exec(cfg, actions + more).value, k)
  }

  predicate Started(s: System, k: nat) {
    k < |s.phases| && s.phases[k] != Waiting && s.phases[k] != Launched
  }

  lemma {:induction false} SomeHolds(phases: seq<Phase>) returns (k: nat)
    requires Tally(Slots, phases) > Tally(Lost, phases)
    ensures k < |phases| && phases[k].Holding?
  {
    if phases[0].Holding? {
      k := 0;
    } else {
      k := SomeHolds(phases[1..]);
      k := k + 1;
    }
  }

  lemma {:induction false} LostMonotone(one: seq<Phase>, other: seq<Phase>)
    requires |one| == |other| && forall k :: 0 <= k < |one| && one[k].Raised? ==> other[k] == one[k]
    ensures Tally(Lost, one) <= Tally(Lost, other)
  {
    if one != [] { LostMonotone(one[1..], other[1..]); }
  }

  /** A worker that asks for a slot can get one exactly when fewer than `jobs` slots have been lost. */
  lemma StartsExactly(cfg: Config, actions: seq<Action>, k: nat)
    requires Distinct(cfg.topics) && Exec(cfg, actions).Some? && cfg.progress
    requires Enters(Exec(cfg, actions).value, k, Launched)
    ensures CanStart(cfg, actions, k) <==> Tally(Lost, Exec(cfg, actions).value.phases) < cfg.jobs
  {
    var s := Exec(cfg, actions).value;
    ReachableInv(cfg, actions);
    if Tally(Lost, s.phases) < cfg.jobs {
      StartsWhileSlotsLast(cfg, actions, k);
    } else if CanStart(cfg, actions, k) {
      var more :| Exec(cfg, actions + more).Some? && Started(Exec(cfg, actions + more).value, k);
      NeverStarts(cfg, actions, more, k);
    }
  }

  lemma StartsAtOnce(cfg: Config, actions: seq<Action>, k: nat)
    requires Exec(cfg, actions).Some? && cfg.progress
    requires Enters(Exec(cfg, actions).value, k, Launched) && Exec(cfg, actions).value.free != []
    ensures CanStart(cfg, actions, k)
  {
    hide Exec, Tally;
    ExecSnoc(cfg, actions, Acquire(k));
    assert Started(Exec(cfg, actions + [Acquire(k)]).value, k);
  }

  lemma ReleaseFrees(cfg: Config, s: System, j: nat, k: nat)
    requires Holds(s, j) && Enters(s, k, Launched)
    ensures Apply(cfg, s, Release(j)).Some?
    ensures var s' := Apply(cfg, s, Release(j)).value; Enters(s', k, Launched) && s'.free != []
  {
  }

  lemma StartsLater(cfg: Config, actions: seq<Action>, a: Action, k: nat)
    requires CanStart(cfg, actions + [a], k)
    ensures CanStart(cfg, actions, k)
  {
    hide Exec, Started;
    var more :| Exec(cfg, actions + [a] + more).Some? && Started(Exec(cfg, actions + [a] + more).value, k);
    assert actions + [a] + more == actions + ([a] + more);
  }

  lemma StartsWhileSlotsLast(cfg: Config, actions: seq<Action>, k: nat)
    requires Exec(cfg, actions).Some? && cfg.progress && Inv(cfg, Exec(cfg, actions).value)
    requires Enters(Exec(cfg, actions).value, k, Launched)
    requires Tally(Lost, Exec(cfg, actions).value.phases) < cfg.jobs
    ensures CanStart(cfg, actions, k)
  {
    hide Exec, Tally, StateInv, ReceivedInv, CanStart, Apply;
    var s := Exec(cfg, actions).value;
    if s.free != [] {
      StartsAtOnce(cfg, actions, k);
    } else {
      var j := SomeHolds(s.phases);
      ReleaseFrees(cfg, s, j, k);
      ExecSnoc(cfg, actions, Release(j));
      StartsAtOnce(cfg, actions + [Release(j)], k);
      StartsLater(cfg, actions, Release(j), k);
    }
  }

  /** With every slot lost, nobody who waits for one ever gets past it. */
  lemma {:induction false} NeverStarts(cfg: Config, actions: seq<Action>, more: seq<Action>, k: nat)
    requires Distinct(cfg.topics) && cfg.progress && Exec(cfg, actions).Some? && Exec(cfg, actions + more).Some?
    requires var s := Exec(cfg, actions).value; Enters(s, k, Launched) && Tally(Lost, s.phases) >= cfg.jobs
    ensures Enters(Exec(cfg, actions + more).value, k, Launched)
    decreases |more|
  {
    if more == [] {
      assert actions + more == actions;
    } else {
      var n := |more| - 1;
      var before := actions + more[..n];
      ExecFront(cfg, actions + more);
      assert (actions + more)[..|actions + more| - 1] == before;
      NeverStarts(cfg, actions, more[..n], k);
      AllSlotsLost(cfg, actions, more[..n]);
      StuckStep(cfg, Exec(cfg, before).value, more[n], k);
    }
  }

  lemma AllSlotsLost(cfg: Config, actions: seq<Action>, more: seq<Action>)
    requires Distinct(cfg.topics) && cfg.progress && Exec(cfg, actions).Some? && Exec(cfg, actions + more).Some?
    requires var s := Exec(cfg, actions).value; Running(s) && Tally(Lost, s.phases) >= cfg.jobs
    requires Running(Exec(cfg, actions + more).value)
    ensures Exec(cfg, actions + more).value.free == []
  {
    hide Exec, StateInv;
    var s, s' := Exec(cfg, actions).value, Exec(cfg, actions + more).value;
    ReachableInv(cfg, actions + more);
    HeldWithinPool(s'.phases, |s'.phases|);
    if NoneRaised(s.phases) {
      NoneLost(s.phases);
    } else {
      RaisedStays(cfg, actions, more);
      LostMonotone(s.phases, s'.phases);
    }
  }

  lemma StuckStep(cfg: Config, s: System, a: Action, k: nat)
    requires Apply(cfg, s, a).Some? && cfg.progress && s.free == [] && Enters(s, k, Launched)
    ensures a != Finish && Enters(Apply(cfg, s, a).value, k, Launched)
  {
    hide Tally, Decide;
  }
}
