/**
  What a finished batch command leaves for each topic, from its flags and the topic's old state alone: kept,
  scored again or run again, and the exit code that follows.
*/
module BatchOutcome {
  import opened Texts
  import opened Topics
  import opened BatchController

  /** The state a command finds for a topic; a topic without one is pending and untried. */
  function OldState(cfg: Config, t: Topic): TopicState {
    if t in cfg.start then cfg.start[t] else TopicState(t, "pending", 0, "", "", "", [], [])
  }

  lemma OldStateIs(cfg: Config, t: Topic)
    ensures StateOf(cfg.start, t) == OldState(cfg, t)
  {
  }

  // ---------------------------------------------------------------------------------------------
  // Terminal states
  // ---------------------------------------------------------------------------------------------

  /** Something of an earlier attempt is on record. */
  predicate LeftTrace(state: TopicState) {
    !(state.runDir == "" && state.outputDir == "" && state.lastError == "" && |state.logs| + |state.commands| == 0)
  }

  /** An open status never is a result, a completed one always, and any other exactly with a trace. */
  lemma TerminalExactly(state: TopicState, status: string)
    requires status == Lower(Strip(state.status))
    ensures status in {"", "pending", "running"} ==> !Terminal(state)
    ensures status == "completed" ==> Terminal(state)
    ensures status !in {"", "pending", "running", "completed"} ==> (Terminal(state) <==> LeftTrace(state))
  {
    hide Lower, Strip;
  }

  /** White space and the case of letters in a status do not matter. */
  lemma StatusSpelling(status: string, state: TopicState)
    requires Trim(status) && LowerAll(status)
    requires state.status == status
    ensures Lower(Strip(state.status)) == status
  {
    StripNothing(status);
    LowerNothing(status);
  }

  predicate LowerAll(text: string) {
    forall i :: 0 <= i < |text| ==> !('A' <= text[i] <= 'Z')
  }

  // ---------------------------------------------------------------------------------------------
  // What happens to each topic
  // ---------------------------------------------------------------------------------------------

  /** A requested topic's old state is kept. */
  lemma FinalKeeps(cfg: Config, t: Topic)
    requires t in cfg.topics && !cfg.force
    requires (cfg.skipAnyResult && Terminal(OldState(cfg, t)))
          || (OldState(cfg, t).status == "completed" && cfg.valid(OldState(cfg, t)))
    ensures t in Final(cfg) && Final(cfg)[t] == OldState(cfg, t)
  {
    OldStateIs(cfg, t);
    hide Terminal;
  }

  /** A requested topic whose experiment stands is scored again. */
  lemma FinalRescores(cfg: Config, t: Topic)
    requires t in cfg.topics && !cfg.force && !cfg.skipAnyResult && cfg.scoring
    requires var was := OldState(cfg, t); was.status == "completed" && !cfg.valid(was) && cfg.validUnscored(was)
    ensures t in Final(cfg) && Final(cfg)[t] == cfg.rescore(t, OldState(cfg, t))
  {
    OldStateIs(cfg, t);
    hide Terminal;
  }

  /** Every other requested topic is run again: under force, without a result, or stale beyond scoring. */
  lemma FinalRuns(cfg: Config, t: Topic)
    requires t in cfg.topics
    requires var was := OldState(cfg, t);
      cfg.force
      || (!(cfg.skipAnyResult && Terminal(was))
          && (was.status != "completed" || (!cfg.valid(was) && !(cfg.scoring && cfg.validUnscored(was)))))
    ensures t in Final(cfg) && Final(cfg)[t] == cfg.worker(t, OldState(cfg, t))
  {
    OldStateIs(cfg, t);
    hide Terminal;
  }

  /** Nothing else is touched or added. */
  lemma FinalLeaves(cfg: Config, t: Topic)
    requires t !in cfg.topics
    ensures t in Final(cfg) <==> t in cfg.start
    ensures t in cfg.start ==> Final(cfg)[t] == cfg.start[t]
  {
    hide Decide;
  }

  /** A completed state is terminal, so the three cases exclude each other and cover everything. */
  lemma CompletedIsResult(state: TopicState)
    requires state.status == "completed"
    ensures Terminal(state)
  {
    NormalStatus("completed");
    hide Lower, Strip;
  }

  /** Which topics get a task, and with which state: exactly those that are run again. */
  lemma ScheduledExactly(cfg: Config, t: Topic, previous: TopicState)
    ensures var was := OldState(cfg, t);
      Task(t, previous) in TasksOf(cfg, |cfg.topics|)
      <==> t in cfg.topics && previous == was
           && (cfg.force
               || (!(cfg.skipAnyResult && Terminal(was))
                   && (was.status != "completed" || (!cfg.valid(was) && !(cfg.scoring && cfg.validUnscored(was))))))
  {
    var n := |cfg.topics|;
    OldStateIs(cfg, t);
    TasksOfFacts(cfg, n);
    assert cfg.topics[..n] == cfg.topics;
    hide TasksOf, Terminal;
    assert t in Planned(cfg, n) <==> t in cfg.topics;
    if Task(t, previous) in TasksOf(cfg, n) {
      var task := Task(t, previous);
      assert task.topic in Planned(cfg, n) && task.previous == StateOf(cfg.start, t);
    }
  }

  /** The places in the request from which these tasks come, in its order. */
  ghost predicate TakenFrom(topics: seq<Topic>, tasks: seq<Task>, at: seq<nat>) {
    && |at| == |tasks|
    && (forall k :: 0 <= k < |at| ==> at[k] < |topics| && tasks[k].topic == topics[at[k]])
    && forall j, k :: 0 <= j < k < |at| ==> at[j] < at[k]
  }

  lemma TakenNext(topics: seq<Topic>, tasks: seq<Task>, at: seq<nat>, task: Task)
    requires topics != [] && TakenFrom(topics[..|topics| - 1], tasks, at)
    ensures TakenFrom(topics, tasks, at)
    ensures task.topic == topics[|topics| - 1] ==> TakenFrom(topics, tasks + [task], at + [|topics| - 1])
  {
    var n := |topics| - 1;
    assert forall k :: 0 <= k < |at| ==> topics[..n][at[k]] == topics[at[k]];
  }

  /** Tasks come in the order of the request. */
  lemma {:induction false} ScheduledInOrder(cfg: Config, n: nat) returns (at: seq<nat>)
    requires n <= |cfg.topics|
    ensures TakenFrom(cfg.topics[..n], TasksOf(cfg, n), at)
  {
    hide Decide, TakenFrom;
    if n == 0 {
      at := [];
      assert TakenFrom(cfg.topics[..0], [], []) by { NoneTaken(cfg.topics[..0]); }
    } else {
      var topic, front := cfg.topics[n - 1], TasksOf(cfg, n - 1);
      var task := Task(topic, StateOf(cfg.start, topic));
      at := ScheduledInOrder(cfg, n - 1);
      assert cfg.topics[..n][..n - 1] == cfg.topics[..n - 1];
      TakenNext(cfg.topics[..n], front, at, task);
      if TasksOf(cfg, n) == front + [task] {
        at := at + [n - 1];
      } else {
        assert TasksOf(cfg, n) == front;
      }
    }
  }

  lemma NoneTaken(topics: seq<Topic>)
    ensures TakenFrom(topics, [], [])
  {
  }

  lemma FinalHas(cfg: Config, t: Topic)
    requires t in cfg.topics
    ensures t in Final(cfg)
  {
    hide Decide;
  }

  lemma MissedExactly(cfg: Config, t: Topic)
    requires t in cfg.topics
    ensures t in Final(cfg)
    ensures Fails(cfg, Elements(cfg.topics), Elements(cfg.topics), t)
       <==> Final(cfg)[t].status != "completed" && !(cfg.skipAnyResult && !cfg.force && Terminal(OldState(cfg, t)))
  {
    var was := OldState(cfg, t);
    FinalHas(cfg, t);
    OldStateIs(cfg, t);
    if was.status == "completed" { CompletedIsResult(was); }
    hide Terminal;
  }

  /**
    The exit code is 1 exactly when some requested topic ends without being completed, other than by an old
    result that was skipped, and 0 otherwise.
  */
  lemma FinalExitExactly(cfg: Config)
    ensures FinalExit(cfg) == 0 || FinalExit(cfg) == 1
    ensures forall t <- cfg.topics :: t in Final(cfg)
    ensures FinalExit(cfg) == 1
       <==> exists t <- cfg.topics ::
              Final(cfg)[t].status != "completed" && !(cfg.skipAnyResult && !cfg.force && Terminal(OldState(cfg, t)))
  {
    hide Fails, Terminal, Final;
    forall t | t in cfg.topics
      ensures t in Final(cfg)
      ensures Fails(cfg, Elements(cfg.topics), Elements(cfg.topics), t)
         <==> Final(cfg)[t].status != "completed" && !(cfg.skipAnyResult && !cfg.force && Terminal(OldState(cfg, t)))
    {
      MissedExactly(cfg, t);
    }
    forall t | t !in cfg.topics ensures !Fails(cfg, Elements(cfg.topics), Elements(cfg.topics), t) {
      UnaskedNeverFails(cfg, t);
    }
  }

  lemma UnaskedNeverFails(cfg: Config, t: Topic)
    requires t !in cfg.topics
    ensures !Fails(cfg, Elements(cfg.topics), Elements(cfg.topics), t)
  {
    hide Decide;
  }

  /** The mark of a scheduled topic: one more attempt, running, and nothing on record. */
  lemma MarkerExactly(topic: Topic, previous: TopicState)
    ensures var mark := Marker(topic, previous);
      mark.topic == topic && mark.status == "running" && mark.attempts == previous.attempts + 1 && !LeftTrace(mark)
  {
  }
}
