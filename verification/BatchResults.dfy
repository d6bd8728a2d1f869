/**
  What finished and interrupted runs of the parallel batch controller leave: the serial result, untouched
  topics, and checkpoints a rerun can start from.
*/
module BatchResults {
  import opened Texts
  import opened Topics
  import opened BatchController

  // ---------------------------------------------------------------------------------------------
  // Completed runs
  // ---------------------------------------------------------------------------------------------

  /** Every schedule that finishes ends where the serial command ends, with one result per task. */
  lemma ParallelMatchesSerial(cfg: Config, actions: seq<Action>)
    requires Distinct(cfg.topics) && Exec(cfg, actions).Some? && Exec(cfg, actions).value.control == Finished
    ensures var s := Exec(cfg, actions).value;
      && s.memory == s.disk == Final(cfg)
      && s.exit == FinalExit(cfg)
      && s.scheduled == TasksOf(cfg, |cfg.topics|)
      && forall k: nat :: multiset(s.received)[k] == One(k < |s.scheduled|)
  {
    hide Exec, Decide;
    var s, n := Exec(cfg, actions).value, |cfg.topics|;
    ReachableInv(cfg, actions);
    forall k: nat ensures multiset(s.received)[k] == One(k < |s.scheduled|) { OccursOnce(s.received, k); }
    assert cfg.topics[..n] == cfg.topics;
    TasksOfFacts(cfg, n);
    var done := DoneTopics(s.scheduled, s.received);
    forall t | t in Planned(cfg, n) && Decide(cfg, StateOf(cfg.start, t)) == Run ensures t in done {
      var k :| 0 <= k < |s.scheduled| && s.scheduled[k] == Task(t, StateOf(cfg.start, t));
    }
    SameDone(cfg, Planned(cfg, n), done, Planned(cfg, n));
  }

  lemma {:induction false} OccursOnce(xs: seq<nat>, k: nat)
    requires forall i, j :: 0 <= i < j < |xs| ==> xs[i] != xs[j]
    ensures multiset(xs)[k] == if k in xs then 1 else 0
  {
    if xs != [] {
      var n := |xs| - 1;
      OccursOnce(xs[..n], k);
      assert xs == xs[..n] + [xs[n]];
    }
  }

  /** Only the received results of running topics matter. */
  lemma SameDone(cfg: Config, planned: set<Topic>, one: set<Topic>, other: set<Topic>)
    requires forall t <- planned :: Decide(cfg, StateOf(cfg.start, t)) == Run ==> (t in one <==> t in other)
    ensures Image(cfg, planned, one) == Image(cfg, planned, other)
    ensures ExitCode(cfg, planned, one) == ExitCode(cfg, planned, other)
  {
    hide Decide;
    assert forall t :: Value(cfg, planned, one, t) == Value(cfg, planned, other, t);
    assert forall t :: Fails(cfg, planned, one, t) == Fails(cfg, planned, other, t);
  }

  /** Topics that are skipped, and topics not asked for, keep their state in every reachable checkpoint. */
  lemma SkippedUnchanged(cfg: Config, actions: seq<Action>, topic: Topic)
    requires Distinct(cfg.topics) && Exec(cfg, actions).Some? && topic in cfg.start
    requires topic !in cfg.topics || Decide(cfg, cfg.start[topic]) == Skip
    ensures var s := Exec(cfg, actions).value;
      topic in s.disk && s.disk[topic] == cfg.start[topic] && topic in s.memory && s.memory[topic] == cfg.start[topic]
  {
    hide Exec, Decide;
    ReachableInv(cfg, actions);
  }

  // ---------------------------------------------------------------------------------------------
  // Crash and resume
  // ---------------------------------------------------------------------------------------------

  /** The topics whose worker result is in the checkpoint. */
  function SavedResults(s: System): set<Topic> {
    DoneTopics(s.scheduled, SavedReceived(s))
  }

  lemma MarkerNotTerminal(topic: Topic, previous: TopicState)
    ensures !Terminal(Marker(topic, previous))
  {
    NormalStatus("running");
    hide Strip, Lower;
  }

  lemma CompletedTerminal(state: TopicState)
    requires state.status == "completed"
    ensures Terminal(state)
  {
    NormalStatus("completed");
    hide Strip, Lower;
  }

  /** The checkpoint was written after this topic was planned. */
  ghost predicate Covered(cfg: Config, s: System, topic: Topic) {
    exists i :: 0 <= i < |cfg.topics| && i < SavedNext(cfg, s) && cfg.topics[i] == topic
  }

  /** In every checkpoint a scheduled topic is terminal exactly when a terminal result of it was saved. */
  lemma CheckpointTerminal(cfg: Config, actions: seq<Action>, topic: Topic)
    requires Distinct(cfg.topics) && Exec(cfg, actions).Some?
    requires Covered(cfg, Exec(cfg, actions).value, topic)
    requires Decide(cfg, StateOf(cfg.start, topic)) == Run
    ensures var s := Exec(cfg, actions).value;
      && topic in s.disk
      && (Terminal(s.disk[topic]) <==>
            topic in SavedResults(s) && Terminal(cfg.worker(topic, StateOf(cfg.start, topic))))
      && (topic in SavedResults(s) ==> s.disk[topic] == cfg.worker(topic, StateOf(cfg.start, topic)))
  {
    hide Exec, Decide, Terminal;
    ReachableInv(cfg, actions);
    MarkerNotTerminal(topic, StateOf(cfg.start, topic));
    var s := Exec(cfg, actions).value;
    var i :| 0 <= i < |cfg.topics| && i < SavedNext(cfg, s) && cfg.topics[i] == topic;
    assert cfg.topics[..SavedNext(cfg, s)][i] == topic;
  }

  /** The rerun reads the checkpoint the crash left behind. */
  function Resume(cfg: Config, s: System): Config {
    cfg.(start := s.disk)
  }

  /** Crash at any step and rerun: saved terminal results stay, everything else runs again. */
  lemma CrashAndResume(cfg: Config, actions: seq<Action>, topic: Topic)
    requires Distinct(cfg.topics) && Exec(cfg, actions).Some? && topic in cfg.topics
    requires cfg.skipAnyResult && !cfg.force
    ensures var s := Exec(cfg, actions).value;
            var again := Final(Resume(cfg, s));
            var found := StateOf(s.disk, topic);
      && topic in again
      && again[topic] == (if Terminal(found) then found else cfg.worker(topic, found))
      && (Terminal(again[topic]) <==> Terminal(found) || Terminal(cfg.worker(topic, found)))
  {
    hide Exec, Terminal;
    var s := Exec(cfg, actions).value;
    var found := StateOf(s.disk, topic);
    if found.status == "completed" { CompletedTerminal(found); }
  }

  /** If workers report terminal results, no result that was saved is lost and no topic is left open. */
  lemma NothingLost(cfg: Config, actions: seq<Action>, rerun: seq<Action>, topic: Topic)
    requires Distinct(cfg.topics) && Exec(cfg, actions).Some? && topic in cfg.topics
    requires cfg.skipAnyResult && !cfg.force
    requires forall t, previous :: Terminal(cfg.worker(t, previous))
    requires var resumed := Exec(Resume(cfg, Exec(cfg, actions).value), rerun);
      resumed.Some? && resumed.value.control == Finished
    ensures var s := Exec(cfg, actions).value;
            var after := Exec(Resume(cfg, s), rerun).value.disk;
      && topic in after && Terminal(after[topic])
      && (topic in SavedResults(s) ==> after[topic] == cfg.worker(topic, StateOf(cfg.start, topic)))
  {
    hide Exec, Terminal, Decide;
    var s := Exec(cfg, actions).value;
    ReachableInv(cfg, actions);
    ParallelMatchesSerial(Resume(cfg, s), rerun);
    CrashAndResume(cfg, actions, topic);
    if topic in SavedResults(s) {
      SavedIsPlanned(cfg, s, topic);
      CheckpointTerminal(cfg, actions, topic);
    }
  }

  lemma SavedIsPlanned(cfg: Config, s: System, topic: Topic)
    requires Inv(cfg, s) && topic in SavedResults(s)
    ensures Covered(cfg, s, topic) && Decide(cfg, StateOf(cfg.start, topic)) == Run
  {
    hide Decide, Image, ExitCode, TasksOf;
    var k :| k in SavedReceived(s) && k < |s.scheduled| && s.scheduled[k].topic == topic;
    TasksOfFacts(cfg, NextOf(cfg, s));
    assert s.scheduled[k] in s.scheduled;
  }

  // ---------------------------------------------------------------------------------------------
  // A command ended by an exception
  // ---------------------------------------------------------------------------------------------

  lemma StoppedStep(cfg: Config, s: System, a: Action)
    requires Inv(cfg, s) && s.control == Stopped && Apply(cfg, s, a).Some?
    ensures var s' := Apply(cfg, s, a).value;
      && s'.control == Stopped && s'.memory == s.memory && s'.disk == s.disk
      && s'.received == s.received && s'.scheduled == s.scheduled
  {
    hide StateInv, PoolInv, Tally, Decide;
  }

  lemma ExecLast(cfg: Config, actions: seq<Action>)
    requires actions != [] && Exec(cfg, actions).Some?
    ensures var n := |actions| - 1;
      Exec(cfg, actions[..n]).Some? && Apply(cfg, Exec(cfg, actions[..n]).value, actions[n]) == Exec(cfg, actions)
  {
    hide Apply;
  }

  /** Whatever the pool still does after an exception has ended the command, nothing is received or saved. */
  lemma {:induction false} StoppedKeeps(cfg: Config, actions: seq<Action>, more: seq<Action>)
    requires Distinct(cfg.topics) && Exec(cfg, actions).Some? && Exec(cfg, actions + more).Some?
    requires Exec(cfg, actions).value.control == Stopped
    ensures var s, s' := Exec(cfg, actions).value, Exec(cfg, actions + more).value;
      && s'.control == Stopped && s'.memory == s.memory && s'.disk == s.disk
      && s'.received == s.received && s'.scheduled == s.scheduled
    decreases |more|
  {
    hide Exec, Apply, Inv, Distinct;
    if more == [] {
      assert actions + more == actions;
    } else {
      var n := |more| - 1;
      var before := actions + more[..n];
      ExecLast(cfg, actions + more);
      assert (actions + more)[..|actions + more| - 1] == before;
      StoppedKeeps(cfg, actions, more[..n]);
      ReachableInv(cfg, before);
      StoppedStep(cfg, Exec(cfg, before).value, more[n]);
    }
  }

  lemma StoppedDisk(cfg: Config, s: System)
    requires Inv(cfg, s) && s.control == Stopped
    ensures s.disk == Image(cfg, Planned(cfg, |cfg.topics|), DoneTopics(s.scheduled, s.received))
    ensures s.scheduled == TasksOf(cfg, |cfg.topics|)
  {
    hide Image, ExitCode, PoolInv, TasksOf, DoneTopics;
  }

  lemma RunTask(cfg: Config, task: Task)
    requires task in TasksOf(cfg, |cfg.topics|)
    ensures task.topic in Planned(cfg, |cfg.topics|) && task.previous == StateOf(cfg.start, task.topic)
    ensures Decide(cfg, task.previous) == Run
  {
    TasksOfFacts(cfg, |cfg.topics|);
    hide TasksOf, Decide, Planned;
  }

  lemma ImageOfTask(cfg: Config, done: set<Topic>, task: Task)
    requires task.topic in Planned(cfg, |cfg.topics|) && task.previous == StateOf(cfg.start, task.topic)
    requires Decide(cfg, task.previous) == Run
    ensures var image := Image(cfg, Planned(cfg, |cfg.topics|), done);
      && task.topic in image
      && image[task.topic]
         == if task.topic in done then cfg.worker(task.topic, task.previous) else Marker(task.topic, task.previous)
  {
    hide Decide, Planned, Marker;
  }

  /**
    What an ended command has recorded for good: each scheduled topic has its worker's result exactly when
    that was received before the end, and otherwise stays marked as running, even if its worker completes.
  */
  lemma StoppedRecordsExactly(cfg: Config, actions: seq<Action>, more: seq<Action>, task: Task)
    requires Distinct(cfg.topics) && Exec(cfg, actions).Some? && Exec(cfg, actions + more).Some?
    requires Exec(cfg, actions).value.control == Stopped && task in Exec(cfg, actions).value.scheduled
    ensures var s, s' := Exec(cfg, actions).value, Exec(cfg, actions + more).value;
      && task.topic in s'.disk
      && s'.disk[task.topic] == (if task.topic in DoneTopics(s.scheduled, s.received)
                                 then cfg.worker(task.topic, task.previous) else Marker(task.topic, task.previous))
      && !Terminal(Marker(task.topic, task.previous))
  {
    hide Exec, Inv, Image, DoneTopics, Terminal, Distinct;
    var s := Exec(cfg, actions).value;
    StoppedKeeps(cfg, actions, more);
    ReachableInv(cfg, actions);
    StoppedDisk(cfg, s);
    RunTask(cfg, task);
    ImageOfTask(cfg, DoneTopics(s.scheduled, s.received), task);
    MarkerNotTerminal(task.topic, task.previous);
  }

  /** A task whose worker has completed but was not received is among those an ended command does not record. */
  lemma DoneIsUnrecorded(cfg: Config, actions: seq<Action>, k: nat)
    requires Distinct(cfg.topics) && Exec(cfg, actions).Some?
    requires var s := Exec(cfg, actions).value; Running(s) && k < |s.phases| && s.phases[k] != Received
    ensures var s := Exec(cfg, actions).value;
      k < |s.scheduled| && s.scheduled[k].topic !in DoneTopics(s.scheduled, s.received)
  {
    hide Exec, Image, ExitCode, PoolInv;
    var s := Exec(cfg, actions).value;
    ReachableInv(cfg, actions);
    TasksOfDistinct(cfg, |cfg.topics|);
    NotDoneYet(s.scheduled, s.received, k);
  }
}
