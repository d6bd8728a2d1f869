/**
  The batch controllers of benchmark/arc_bench/batch_runner.py: the serial loop, and the parallel one
  with its thread pool, progress slots and checkpoint file as a transition system. A run of the
  parallel controller is any sequence of actions; every schedule and every crash point is covered.

  Workers, scoring and the validity check of old results are arbitrary functions of a topic and its
  previous state.
*/
module BatchController {
  import opened Wrappers
  import opened Texts
  import opened Topics

  type Topic = string

  datatype TopicState = TopicState(
    topic: Topic,
    status: string,
    attempts: nat,
    runDir: string,
    outputDir: string,
    lastError: string,
    logs: seq<string>,
    commands: seq<seq<string>>)

  type Batch = map<Topic, TopicState>

  function Fresh(topic: Topic): TopicState {
    TopicState(topic, "pending", 0, "", "", "", [], [])
  }

  /** `_topic_state` */
  function StateOf(batch: Batch, topic: Topic): TopicState {
    if topic in batch then batch[topic] else Fresh(topic)
  }

  /** `_state_has_terminal_result` */
  predicate Terminal(state: TopicState) {
    var status := Lower(Strip(state.status));
    if status in ["", "pending", "running"] then false
    else if status == "completed" then true
    else state.runDir != "" || state.outputDir != "" || state.lastError != "" || state.logs != [] || state.commands != []
  }

  /** What is written for a topic before its worker starts. */
  function Marker(topic: Topic, previous: TopicState): TopicState {
    TopicState(topic, "running", previous.attempts + 1, "", "", "", [], [])
  }

  // ---------------------------------------------------------------------------------------------
  // What happens to one topic
  // ---------------------------------------------------------------------------------------------

  datatype Config = Config(
    topics: seq<Topic>,
    start: Batch,
    skipAnyResult: bool,
    force: bool,
    scoring: bool,
    jobs: nat,
    progress: bool,
    worker: (Topic, TopicState) -> TopicState,
    rescore: (Topic, TopicState) -> TopicState,
    valid: TopicState -> bool,            // meets every requirement asked for
    validUnscored: TopicState -> bool)    // meets them all but the scores

  datatype Decision = Skip | Rescore | Run

  function Decide(cfg: Config, current: TopicState): Decision {
    if cfg.skipAnyResult && !cfg.force && Terminal(current) then Skip
    else if current.status == "completed" && !cfg.force then
      if cfg.valid(current) then Skip
      else if cfg.scoring && cfg.validUnscored(current) then Rescore
      else Run
    else Run
  }

  lemma NormalStatus(status: string)
    requires status in ["pending", "running", "completed"]
    ensures Lower(Strip(status)) == status
  {
    StripNothing(status);
    LowerNothing(status);
  }

  lemma FreshRuns(cfg: Config, topic: Topic)
    ensures Decide(cfg, Fresh(topic)) == Run
  {
    NormalStatus("pending");
    hide Strip, Lower;
  }

  /** A topic's state once the planned topics were handled and the results of `done` arrived. */
  function Value(cfg: Config, planned: set<Topic>, done: set<Topic>, topic: Topic): TopicState {
    var current := StateOf(cfg.start, topic);
    if topic !in planned then current
    else
      match Decide(cfg, current)
      case Skip => current
      case Rescore => cfg.rescore(topic, current)
      case Run => if topic in done then cfg.worker(topic, current) else Marker(topic, current)
  }

  function Image(cfg: Config, planned: set<Topic>, done: set<Topic>): Batch {
    map t | t in cfg.start.Keys + planned :: Value(cfg, planned, done, t)
  }

  /** A result that arrived for this topic did not complete it. */
  predicate Fails(cfg: Config, planned: set<Topic>, done: set<Topic>, topic: Topic) {
    topic in planned &&
    var current := StateOf(cfg.start, topic);
    match Decide(cfg, current)
    case Skip => false
    case Rescore => cfg.rescore(topic, current).status != "completed"
    case Run => topic in done && cfg.worker(topic, current).status != "completed"
  }

  ghost function ExitCode(cfg: Config, planned: set<Topic>, done: set<Topic>): int {
    if exists t :: Fails(cfg, planned, done, t) then 1 else 0
  }

  /** The batch after a complete run, whoever runs it. */
  function Final(cfg: Config): Batch {
    Image(cfg, Elements(cfg.topics), Elements(cfg.topics))
  }

  ghost function FinalExit(cfg: Config): int {
    ExitCode(cfg, Elements(cfg.topics), Elements(cfg.topics))
  }

  // ---------------------------------------------------------------------------------------------
  // The serial command
  // ---------------------------------------------------------------------------------------------

  method RunSerial(cfg: Config) returns (state: Batch, disk: Batch, exit: int)
    requires Distinct(cfg.topics)
    ensures state == disk == Final(cfg) && exit == FinalExit(cfg)
  {
    state, disk, exit := cfg.start, cfg.start, 0;
    for i := 0 to |cfg.topics|
      invariant state == disk == Image(cfg, Elements(cfg.topics[..i]), Elements(cfg.topics[..i]))
      invariant exit == ExitCode(cfg, Elements(cfg.topics[..i]), Elements(cfg.topics[..i]))
    {
      var topic := cfg.topics[i];
      ghost var before := Elements(cfg.topics[..i]);
      PlanOne(cfg, i);
      HandledOne(cfg, before, topic);
      var current := StateOf(state, topic);
      match Decide(cfg, current) {
        case Skip =>
        case Rescore =>
          var result := cfg.rescore(topic, current);
          state := state[topic := result];
          disk := state;
          if result.status != "completed" { exit := 1; }
        case Run =>
          var result := cfg.worker(topic, current);
          state := state[topic := result];
          disk := state;
          if result.status != "completed" { exit := 1; }
      }
    }
    assert cfg.topics[..|cfg.topics|] == cfg.topics;
  }

  lemma PlanOne(cfg: Config, i: nat)
    requires Distinct(cfg.topics) && i < |cfg.topics|
    ensures cfg.topics[i] !in Elements(cfg.topics[..i])
    ensures Elements(cfg.topics[..i + 1]) == Elements(cfg.topics[..i]) + {cfg.topics[i]}
  {
    assert cfg.topics[..i + 1] == cfg.topics[..i] + [cfg.topics[i]];
  }

  /** Handling one more topic to the end changes that topic only. */
  lemma HandledOne(cfg: Config, before: set<Topic>, topic: Topic)
    requires topic !in before
    ensures StateOf(Image(cfg, before, before), topic) == StateOf(cfg.start, topic)
    ensures var image, after, current := Image(cfg, before, before), before + {topic}, StateOf(cfg.start, topic);
      && Image(cfg, after, after)
         == (match Decide(cfg, current)
             case Skip => image
             case Rescore => image[topic := cfg.rescore(topic, current)]
             case Run => image[topic := cfg.worker(topic, current)])
      && ExitCode(cfg, after, after)
         == (if Fails(cfg, after, after, topic) then 1 else ExitCode(cfg, before, before))
  {
    hide Decide;
    FreshRuns(cfg, topic);
    var after := before + {topic};
    forall t | t != topic
      ensures Value(cfg, after, after, t) == Value(cfg, before, before, t)
      ensures Fails(cfg, after, after, t) == Fails(cfg, before, before, t)
    {
    }
  }

  // ---------------------------------------------------------------------------------------------
  // The parallel command
  // ---------------------------------------------------------------------------------------------

  datatype Task = Task(topic: Topic, previous: TopicState)

  /** The life of a submitted task. Its thread is taken from Launched to Released. */
  datatype Phase =
    | Waiting
    | Launched
    | Holding(slot: nat)
    | Unslotted
    | Released
    | Done
    | Received
    | Raised(lost: Option<nat>)   // ended by an exception, with the slot it never gave back if it held one

  /** `dirty` is set between a change of the state map and the checkpoint that follows it. */
  datatype Control =
    | Planning(next: nat)
    | Collecting
    | Stopped        // an exception has ended the command; the pool still runs to its end
    | Finished

  datatype System = System(
    control: Control,
    dirty: bool,
    memory: Batch,
    disk: Batch,
    exit: int,
    scheduled: seq<Task>,
    phases: seq<Phase>,
    free: seq<nat>,
    received: seq<nat>)

  datatype Action =
    | Plan
    | Save
    | Submit
    | Launch(task: nat)
    | Acquire(task: nat)
    | DropBar(task: nat)     // tqdm is missing: the slot goes back and the worker runs without it
    | Release(task: nat)
    | Complete(task: nat)
    | Raise(task: nat)       // an exception of the progress bar or behind the worker's own handlers
    | Receive(task: nat)
    | Fail(task: nat)        // the controller meets a worker's exception
    | Finish

  function Initial(cfg: Config): System {
    System(Planning(0), false, cfg.start, cfg.start, 0, [], [], [], [])
  }

  function Worse(exit: int, result: TopicState): int {
    if result.status != "completed" then 1 else exit
  }

  function PlanNext(cfg: Config, s: System): System
    requires s.control.Planning? && s.control.next < |cfg.topics|
  {
    var topic := cfg.topics[s.control.next];
    var current := StateOf(s.memory, topic);
    var moved := s.(control := Planning(s.control.next + 1));
    match Decide(cfg, current)
    case Skip => moved
    case Rescore =>
      var result := cfg.rescore(topic, current);
      moved.(dirty := true, memory := s.memory[topic := result], exit := Worse(s.exit, result))
    case Run =>
      moved.(dirty := true, memory := s.memory[topic := Marker(topic, current)],
             scheduled := s.scheduled + [Task(topic, current)])
  }

  predicate InPool(p: Phase) {
    p.Launched? || p.Holding? || p.Unslotted? || p.Released?
  }

  /** Threads taken, slots out, one particular slot out, slots lost for good, actions still to come. */
  datatype Metric = Threads | Slots | SlotAt(slot: nat) | Lost | Steps

  function Score(m: Metric, p: Phase): nat {
    match m
    case Threads => One(InPool(p))
    case Slots => One(p.Holding? || (p.Raised? && p.lost.Some?))
    case SlotAt(x) => One(p == Holding(x) || p == Raised(Some(x)))
    case Lost => One(p.Raised? && p.lost.Some?)
    case Steps => PhaseWeight(p)
  }

  function Tally(m: Metric, phases: seq<Phase>): nat {
    if phases == [] then 0 else Score(m, phases[0]) + Tally(m, phases[1..])
  }

  function One(b: bool): nat {
    if b then 1 else 0
  }

  /** The most actions a task in this phase can still take, its checkpoint included. */
  function PhaseWeight(p: Phase): nat {
    match p
    case Waiting => 7
    case Launched => 6
    case Holding(_) => 5
    case Unslotted => 4
    case Released => 3
    case Done => 2
    case Received => 0
    case Raised(_) => 0
  }

  /** The action's effect, or nothing when it is not enabled. */
  function Apply(cfg: Config, s: System, a: Action): Option<System> {
    match a
    case Plan =>
      if s.control.Planning? && s.control.next < |cfg.topics| && !s.dirty then Some(PlanNext(cfg, s)) else None
    case Save =>
      if s.dirty then Some(s.(dirty := false, disk := s.memory)) else None
    case Submit =>
      if s.control == Planning(|cfg.topics|) && !s.dirty then
        if s.scheduled == [] then Some(s.(control := Finished))
        else Some(s.(control := Collecting,
                     phases := seq(|s.scheduled|, _ => Waiting),
                     free := if cfg.progress then seq(cfg.jobs, i => i) else []))
      else None
    case Launch(k) =>
      if Enters(s, k, Waiting) && Tally(Threads, s.phases) < cfg.jobs then Some(Enter(s, k, Launched)) else None
    case Acquire(k) =>
      if !Enters(s, k, Launched) then None
      else if !cfg.progress then Some(Enter(s, k, Unslotted))
      else if s.free != [] then Some(Enter(s, k, Holding(s.free[0])).(free := s.free[1..]))
      else None   // the queue's get blocks
    case DropBar(k) =>
      if Holds(s, k) then Some(Enter(s, k, Unslotted).(free := s.free + [s.phases[k].slot])) else None
    case Release(k) =>
      if Holds(s, k) then Some(Enter(s, k, Released).(free := s.free + [s.phases[k].slot]))
      else if Enters(s, k, Unslotted) then Some(Enter(s, k, Released))
      else None
    case Complete(k) =>
      if Enters(s, k, Released) then Some(Enter(s, k, Done)) else None
    case Raise(k) =>
      if Holds(s, k) then Some(Enter(s, k, Raised(Some(s.phases[k].slot))))
      else if Enters(s, k, Released) then Some(Enter(s, k, Raised(None)))
      else None
    case Fail(k) =>
      if s.control == Collecting && !s.dirty && k < |s.phases| && s.phases[k].Raised? then Some(s.(control := Stopped))
      else None
    case Receive(k) =>
      if s.control == Collecting && Enters(s, k, Done) && k < |s.scheduled| && !s.dirty then
        var task := s.scheduled[k];
        var result := cfg.worker(task.topic, task.previous);
        Some(Enter(s, k, Received).(dirty := true, memory := s.memory[task.topic := result],
                                    exit := Worse(s.exit, result), received := s.received + [k]))
      else None
    case Finish =>
      if s.control == Collecting && !s.dirty && (forall k :: 0 <= k < |s.phases| ==> s.phases[k] == Received)
      then Some(s.(control := Finished)) else None
  }

  /** The pool has its tasks. */
  predicate Running(s: System) {
    s.control == Collecting || s.control == Stopped
  }

  predicate NoneRaised(phases: seq<Phase>) {
    forall k :: 0 <= k < |phases| ==> !phases[k].Raised?
  }

  predicate Enters(s: System, k: nat, phase: Phase) {
    Running(s) && k < |s.phases| && s.phases[k] == phase
  }

  predicate Holds(s: System, k: nat) {
    Running(s) && k < |s.phases| && s.phases[k].Holding?
  }

  function Enter(s: System, k: nat, phase: Phase): System
    requires k < |s.phases|
  {
    s.(phases := s.phases[k := phase])
  }

  /** Any schedule of actions, each enabled when its turn comes. */
  function Exec(cfg: Config, actions: seq<Action>): Option<System> {
    if actions == [] then Some(Initial(cfg))
    else
      var before := Exec(cfg, actions[..|actions| - 1]);
      if before.None? then None else Apply(cfg, before.value, actions[|actions| - 1])
  }

  // ---------------------------------------------------------------------------------------------
  // The invariant
  // ---------------------------------------------------------------------------------------------

  /** The tasks the planned topics lead to, in order. */
  function TasksOf(cfg: Config, n: nat): seq<Task>
    requires n <= |cfg.topics|
  {
    if n == 0 then []
    else
      var topic := cfg.topics[n - 1];
      var current := StateOf(cfg.start, topic);
      TasksOf(cfg, n - 1) + if Decide(cfg, current) == Run then [Task(topic, current)] else []
  }

  function DoneTopics(scheduled: seq<Task>, received: seq<nat>): set<Topic> {
    set k | k in received && k < |scheduled| :: scheduled[k].topic
  }

  function Planned(cfg: Config, n: nat): set<Topic>
    requires n <= |cfg.topics|
  {
    Elements(cfg.topics[..n])
  }

  function NextOf(cfg: Config, s: System): int {
    if s.control.Planning? then s.control.next else |cfg.topics|
  }

  function MinusLast<T>(xs: seq<T>): seq<T> {
    if xs == [] then [] else xs[..|xs| - 1]
  }

  /** What the checkpoint covers: all but the change still to be saved. */
  function SavedNext(cfg: Config, s: System): int {
    if s.dirty && s.control.Planning? then s.control.next - 1 else NextOf(cfg, s)
  }

  function SavedReceived(s: System): seq<nat> {
    if s.dirty && !s.control.Planning? then MinusLast(s.received) else s.received
  }

  ghost predicate StateInv(cfg: Config, s: System) {
    && 0 <= SavedNext(cfg, s) <= NextOf(cfg, s) <= |cfg.topics|
    && s.scheduled == TasksOf(cfg, NextOf(cfg, s))
    && s.memory == Image(cfg, Planned(cfg, NextOf(cfg, s)), DoneTopics(s.scheduled, s.received))
    && s.disk == Image(cfg, Planned(cfg, SavedNext(cfg, s)), DoneTopics(s.scheduled, SavedReceived(s)))
    && s.exit == ExitCode(cfg, Planned(cfg, NextOf(cfg, s)), DoneTopics(s.scheduled, s.received))
  }

  /** Each result is received once, and a finished system has received them all. */
  ghost predicate ReceivedInv(s: System) {
    && (s.control.Planning? ==> s.received == [] && s.phases == [])
    && (!s.control.Planning? ==> |s.phases| == |s.scheduled|)
    && (s.control == Finished ==> !s.dirty && forall k :: 0 <= k < |s.phases| ==> s.phases[k] == Received)
    && (s.control == Stopped ==> !s.dirty && !NoneRaised(s.phases))
    && (s.dirty && s.control == Collecting ==> s.received != [])
    && (forall i, j :: 0 <= i < j < |s.received| ==> s.received[i] != s.received[j])
    && (forall k <- s.received :: k < |s.phases|)
    && (forall k :: 0 <= k < |s.phases| ==> (s.phases[k] == Received <==> k in s.received))
  }

  /** Free and held slots together are 0..jobs-1, each once; at most `jobs` threads are taken. */
  ghost predicate PoolInv(cfg: Config, s: System) {
    Running(s) ==>
      && Tally(Threads, s.phases) <= cfg.jobs
      && |s.free| + Tally(Slots, s.phases) == (if cfg.progress then cfg.jobs else 0)
      && forall x: nat :: multiset(s.free)[x] + Tally(SlotAt(x), s.phases) == One(cfg.progress && x < cfg.jobs)
  }

  ghost predicate Inv(cfg: Config, s: System) {
    StateInv(cfg, s) && ReceivedInv(s) && PoolInv(cfg, s)
  }

  // ---------------------------------------------------------------------------------------------
  // Every action keeps it
  // ---------------------------------------------------------------------------------------------

  lemma {:induction false} TasksOfFacts(cfg: Config, n: nat)
    requires n <= |cfg.topics|
    ensures forall task <- TasksOf(cfg, n) ::
      task.topic in Planned(cfg, n) && task.previous == StateOf(cfg.start, task.topic) && Decide(cfg, task.previous) == Run
    ensures forall t <- Planned(cfg, n) :: Decide(cfg, StateOf(cfg.start, t)) == Run ==>
      Task(t, StateOf(cfg.start, t)) in TasksOf(cfg, n)
  {
    hide Decide;
    if n > 0 {
      TasksOfFacts(cfg, n - 1);
      assert cfg.topics[..n] == cfg.topics[..n - 1] + [cfg.topics[n - 1]];
      assert Planned(cfg, n) == Planned(cfg, n - 1) + {cfg.topics[n - 1]};
    }
  }

  /** Each scheduled topic has one task. */
  lemma {:induction false} TasksOfDistinct(cfg: Config, n: nat)
    requires Distinct(cfg.topics) && n <= |cfg.topics|
    ensures forall i, j :: 0 <= i < j < |TasksOf(cfg, n)| ==> TasksOf(cfg, n)[i].topic != TasksOf(cfg, n)[j].topic
  {
    hide Decide;
    if n > 0 {
      TasksOfDistinct(cfg, n - 1);
      TasksOfFacts(cfg, n - 1);
      PlanOne(cfg, n - 1);
      var tasks := TasksOf(cfg, n - 1);
      forall i | 0 <= i < |tasks| ensures tasks[i].topic != cfg.topics[n - 1] {
        assert tasks[i] in tasks;
      }
    }
  }

  /** Planning one more topic, with no result received yet. */
  lemma PlannedOne(cfg: Config, before: set<Topic>, topic: Topic)
    requires topic !in before
    ensures StateOf(Image(cfg, before, {}), topic) == StateOf(cfg.start, topic)
    ensures var image, after, current := Image(cfg, before, {}), before + {topic}, StateOf(cfg.start, topic);
      && Image(cfg, after, {})
         == (match Decide(cfg, current)
             case Skip => image
             case Rescore => image[topic := cfg.rescore(topic, current)]
             case Run => image[topic := Marker(topic, current)])
      && ExitCode(cfg, after, {})
         == (if Fails(cfg, after, {}, topic) then 1 else ExitCode(cfg, before, {}))
  {
    hide Decide;
    FreshRuns(cfg, topic);
    var after := before + {topic};
    forall t | t != topic
      ensures Value(cfg, after, {}, t) == Value(cfg, before, {}, t)
      ensures Fails(cfg, after, {}, t) == Fails(cfg, before, {}, t)
    {
    }
  }

  /** Receiving one more result changes that topic only. */
  lemma ReceivedOne(cfg: Config, planned: set<Topic>, done: set<Topic>, topic: Topic)
    requires topic in planned && Decide(cfg, StateOf(cfg.start, topic)) == Run
    ensures var image, result := Image(cfg, planned, done), cfg.worker(topic, StateOf(cfg.start, topic));
      && Image(cfg, planned, done + {topic}) == image[topic := result]
      && (topic !in done ==>
            ExitCode(cfg, planned, done + {topic}) == Worse(ExitCode(cfg, planned, done), result))
  {
    hide Decide;
    assert Fails(cfg, planned, done + {topic}, topic)
      <==> cfg.worker(topic, StateOf(cfg.start, topic)).status != "completed";
    assert topic !in done ==> !Fails(cfg, planned, done, topic);
    forall t | t != topic
      ensures Value(cfg, planned, done + {topic}, t) == Value(cfg, planned, done, t)
      ensures Fails(cfg, planned, done + {topic}, t) == Fails(cfg, planned, done, t)
    {
    }
  }

  lemma PlanKeepsInv(cfg: Config, s: System)
    requires Distinct(cfg.topics) && Inv(cfg, s) && Apply(cfg, s, Plan).Some?
    ensures Inv(cfg, Apply(cfg, s, Plan).value)
  {
    hide StateInv, Decide, Distinct;
    PlanKeepsState(cfg, s);
  }

  lemma NoneDone(scheduled: seq<Task>)
    ensures DoneTopics(scheduled, []) == {}
  {
  }

  lemma PlanKeepsState(cfg: Config, s: System)
    requires Distinct(cfg.topics) && StateInv(cfg, s) && Apply(cfg, s, Plan).Some? && s.received == []
    ensures StateInv(cfg, Apply(cfg, s, Plan).value)
  {
    hide Decide, Image, ExitCode, Distinct, DoneTopics;
    var n := s.control.next;
    PlanOne(cfg, n);
    PlannedOne(cfg, Planned(cfg, n), cfg.topics[n]);
    NoneDone(s.scheduled);
    NoneDone(Apply(cfg, s, Plan).value.scheduled);
  }

  lemma DoneTopicsGrows(scheduled: seq<Task>, received: seq<nat>, k: nat)
    requires k < |scheduled|
    ensures DoneTopics(scheduled, received + [k]) == DoneTopics(scheduled, received) + {scheduled[k].topic}
  {
  }

  /** A topic not received before is not done yet. */
  lemma NotDoneYet(scheduled: seq<Task>, received: seq<nat>, k: nat)
    requires k < |scheduled| && k !in received
    requires forall i, j :: 0 <= i < j < |scheduled| ==> scheduled[i].topic != scheduled[j].topic
    ensures scheduled[k].topic !in DoneTopics(scheduled, received)
  {
  }

  lemma ReceiveKeepsState(cfg: Config, s: System, k: nat)
    requires Distinct(cfg.topics) && StateInv(cfg, s) && Apply(cfg, s, Receive(k)).Some? && k !in s.received
    ensures StateInv(cfg, Apply(cfg, s, Receive(k)).value)
  {
    hide Decide, Image, ExitCode, Distinct, TasksOf, DoneTopics;
    var n, task, s' := |cfg.topics|, s.scheduled[k], Apply(cfg, s, Receive(k)).value;
    TasksOfFacts(cfg, n);
    TasksOfDistinct(cfg, n);
    assert task in s.scheduled;
    DoneTopicsGrows(s.scheduled, s.received, k);
    ReceivedOne(cfg, Planned(cfg, n), DoneTopics(s.scheduled, s.received), task.topic);
    NotDoneYet(s.scheduled, s.received, k);
    assert MinusLast(s'.received) == s.received;
  }

  lemma ReceiveKeepsInv(cfg: Config, s: System, k: nat)
    requires Distinct(cfg.topics) && Inv(cfg, s) && Apply(cfg, s, Receive(k)).Some?
    ensures StateInv(cfg, Apply(cfg, s, Receive(k)).value) && ReceivedInv(Apply(cfg, s, Receive(k)).value)
  {
    hide StateInv, Distinct, PoolInv;
    assert k !in s.received;
    ReceiveKeepsState(cfg, s, k);
  }

  lemma {:induction false} TallyUpdate(m: Metric, phases: seq<Phase>, k: nat, p: Phase)
    requires k < |phases|
    ensures Tally(m, phases[k := p]) + Score(m, phases[k]) == Tally(m, phases) + Score(m, p)
  {
    var after := phases[k := p];
    assert after[1..] == if k == 0 then phases[1..] else phases[1..][k - 1 := p];
    if k > 0 { TallyUpdate(m, phases[1..], k - 1, p); }
  }

  lemma {:induction false} WaitingTally(m: Metric, n: nat)
    ensures Tally(m, seq(n, _ => Waiting)) == if m == Steps then 7 * n else 0
  {
    var phases: seq<Phase> := seq(n, _ => Waiting);
    if n > 0 {
      WaitingTally(m, n - 1);
      assert phases[1..] == seq(n - 1, _ => Waiting);
    }
  }

  lemma {:induction false} SlotQueue(jobs: nat, x: nat)
    ensures multiset(seq(jobs, i => i))[x] == One(x < jobs)
  {
    if jobs > 0 {
      SlotQueue(jobs - 1, x);
      assert seq(jobs, i => i) == seq(jobs - 1, i => i) + [jobs - 1];
    }
  }

  lemma SubmitKeepsState(cfg: Config, s: System)
    requires StateInv(cfg, s) && ReceivedInv(s) && Apply(cfg, s, Submit).Some?
    ensures StateInv(cfg, Apply(cfg, s, Submit).value) && ReceivedInv(Apply(cfg, s, Submit).value)
  {
    hide Decide, Image, ExitCode, Tally, TasksOf, DoneTopics, Planned;
  }

  lemma SubmitFillsPool(cfg: Config, s: System)
    requires Apply(cfg, s, Submit).Some?
    ensures PoolInv(cfg, Apply(cfg, s, Submit).value)
  {
    hide Tally;
    WaitingTally(Threads, |s.scheduled|);
    WaitingTally(Slots, |s.scheduled|);
    forall x: nat
      ensures Tally(SlotAt(x), seq(|s.scheduled|, _ => Waiting)) == 0
      ensures multiset(seq(cfg.jobs, i => i))[x] == One(x < cfg.jobs)
    {
      WaitingTally(SlotAt(x), |s.scheduled|);
      SlotQueue(cfg.jobs, x);
    }
  }

  lemma SubmitKeepsInv(cfg: Config, s: System)
    requires Inv(cfg, s) && Apply(cfg, s, Submit).Some?
    ensures Inv(cfg, Apply(cfg, s, Submit).value)
  {
    hide StateInv, ReceivedInv, PoolInv, Apply;
    SubmitKeepsState(cfg, s);
    SubmitFillsPool(cfg, s);
  }

  predicate Pooled(a: Action) {
    a.Launch? || a.Acquire? || a.DropBar? || a.Release? || a.Complete? || a.Raise?
  }

  /** One task changes phase; slots move between it and the queue, threads stay within bounds. */
  ghost predicate Moves(cfg: Config, s: System, k: nat, p: Phase, free: seq<nat>) {
    && Running(s) && k < |s.phases|
    && |free| + Score(Slots, p) == |s.free| + Score(Slots, s.phases[k])
    && (forall x: nat :: multiset(free)[x] + Score(SlotAt(x), p) == multiset(s.free)[x] + Score(SlotAt(x), s.phases[k]))
    && (InPool(p) && !InPool(s.phases[k]) ==> Tally(Threads, s.phases) < cfg.jobs)
  }

  lemma MoveKeepsPool(cfg: Config, s: System, k: nat, p: Phase, s': System)
    requires PoolInv(cfg, s) && Moves(cfg, s, k, p, s'.free)
    requires Running(s') && s'.phases == s.phases[k := p]
    ensures PoolInv(cfg, s')
  {
    hide Tally, Score;
    TallyUpdate(Threads, s.phases, k, p);
    TallyUpdate(Slots, s.phases, k, p);
    forall x: nat ensures multiset(s'.free)[x] + Tally(SlotAt(x), s'.phases) == One(cfg.progress && x < cfg.jobs) {
      TallyUpdate(SlotAt(x), s.phases, k, p);
    }
    assert Score(Threads, p) == One(InPool(p)) && Score(Threads, s.phases[k]) == One(InPool(s.phases[k])) by {
      ScoreThreads(p);
      ScoreThreads(s.phases[k]);
    }
  }

  lemma ScoreThreads(p: Phase)
    ensures Score(Threads, p) == One(InPool(p))
  {
  }

  lemma TakeSlot(free: seq<nat>)
    requires free != []
    ensures forall x: nat :: multiset(free[1..])[x] + One(free[0] == x) == multiset(free)[x]
  {
    assert free == [free[0]] + free[1..];
  }

  lemma PutSlot(free: seq<nat>, slot: nat)
    ensures forall x: nat :: multiset(free + [slot])[x] == multiset(free)[x] + One(slot == x)
  {
  }

  ghost predicate Shape(cfg: Config, s: System, k: nat, s': System) {
    && k < |s.phases| && |s'.phases| == |s.phases|
    && s' == s.(phases := s.phases[k := s'.phases[k]], free := s'.free)
    && Moves(cfg, s, k, s'.phases[k], s'.free)
    && s.phases[k] != Received && s'.phases[k] != Received && !s.phases[k].Raised?
    && PhaseWeight(s'.phases[k]) < PhaseWeight(s.phases[k])
  }

  lemma LaunchShape(cfg: Config, s: System, k: nat)
    requires Enters(s, k, Waiting) && Tally(Threads, s.phases) < cfg.jobs
    ensures Shape(cfg, s, k, Enter(s, k, Launched))
  {
    hide Tally;
  }

  lemma PlainShape(cfg: Config, s: System, k: nat, p: Phase)
    requires Running(s) && k < |s.phases|
    requires (s.phases[k] == Launched && p == Unslotted) || (s.phases[k] == Unslotted && p == Released)
          || (s.phases[k] == Released && (p == Done || p == Raised(None)))
    ensures Shape(cfg, s, k, Enter(s, k, p))
  {
    hide Tally;
  }

  lemma TakeShape(cfg: Config, s: System, k: nat)
    requires Enters(s, k, Launched) && s.free != []
    ensures Shape(cfg, s, k, Enter(s, k, Holding(s.free[0])).(free := s.free[1..]))
  {
    hide Tally;
    TakeSlot(s.free);
  }

  lemma PutShape(cfg: Config, s: System, k: nat, p: Phase)
    requires Holds(s, k) && (p == Unslotted || p == Released)
    ensures Shape(cfg, s, k, Enter(s, k, p).(free := s.free + [s.phases[k].slot]))
  {
    hide Tally;
    PutSlot(s.free, s.phases[k].slot);
  }

  lemma LoseShape(cfg: Config, s: System, k: nat)
    requires Holds(s, k)
    ensures Shape(cfg, s, k, Enter(s, k, Raised(Some(s.phases[k].slot))))
  {
    hide Tally;
  }

  lemma PooledShape(cfg: Config, s: System, a: Action)
    requires Pooled(a) && Apply(cfg, s, a).Some?
    ensures Shape(cfg, s, a.task, Apply(cfg, s, a).value)
  {
    hide Tally, Shape;
    match a
    case Launch(k) => LaunchShape(cfg, s, k);
    case Acquire(k) =>
      if cfg.progress { TakeShape(cfg, s, k); } else { PlainShape(cfg, s, k, Unslotted); }
    case DropBar(k) => PutShape(cfg, s, k, Unslotted);
    case Release(k) =>
      if Holds(s, k) { PutShape(cfg, s, k, Released); } else { PlainShape(cfg, s, k, Released); }
    case Complete(k) => PlainShape(cfg, s, k, Done);
    case Raise(k) =>
      if Holds(s, k) { LoseShape(cfg, s, k); } else { PlainShape(cfg, s, k, Raised(None)); }
  }

  lemma PooledKeepsInv(cfg: Config, s: System, a: Action)
    requires Pooled(a) && Inv(cfg, s) && Apply(cfg, s, a).Some?
    ensures Inv(cfg, Apply(cfg, s, a).value)
    ensures Tally(Steps, Apply(cfg, s, a).value.phases) < Tally(Steps, s.phases)
  {
    hide Inv, Apply, Tally, Shape;
    PooledShape(cfg, s, a);
    ShapeKeepsInv(cfg, s, a.task, Apply(cfg, s, a).value);
  }

  lemma ShapeKeepsInv(cfg: Config, s: System, k: nat, s': System)
    requires Inv(cfg, s) && Shape(cfg, s, k, s')
    ensures Inv(cfg, s') && Tally(Steps, s'.phases) < Tally(Steps, s.phases)
  {
    assert Running(s) && Running(s');
    hide Tally, PoolInv, StateInv, ReceivedInv;
    ShapeKeepsState(cfg, s, k, s');
    hide Moves;
    MoveKeepsPool(cfg, s, k, s'.phases[k], s');
    TallyUpdate(Steps, s.phases, k, s'.phases[k]);
  }

  lemma ShapeKeepsState(cfg: Config, s: System, k: nat, s': System)
    requires StateInv(cfg, s) && ReceivedInv(s) && Shape(cfg, s, k, s') && Running(s)
    ensures StateInv(cfg, s') && ReceivedInv(s')
  {
    hide Image, ExitCode, TasksOf, Moves, DoneTopics, Planned;
    if !NoneRaised(s.phases) {
      var r :| 0 <= r < |s.phases| && s.phases[r].Raised?;
      assert s'.phases[r] == s.phases[r];
    }
  }

  lemma ReceivePoolKept(cfg: Config, s: System, k: nat)
    requires Inv(cfg, s) && Apply(cfg, s, Receive(k)).Some?
    ensures PoolInv(cfg, Apply(cfg, s, Receive(k)).value)
  {
    hide Tally, PoolInv, StateInv;
    MoveKeepsPool(cfg, s, k, Received, Apply(cfg, s, Receive(k)).value);
  }

  lemma ControllerKeepsInv(cfg: Config, s: System, a: Action)
    requires Inv(cfg, s) && (a == Save || a == Finish || a.Fail?) && Apply(cfg, s, a).Some?
    ensures Inv(cfg, Apply(cfg, s, a).value)
  {
    hide Image, ExitCode, Tally, TasksOf;
  }

  /** One step of any kind. */
  lemma StepKeepsInv(cfg: Config, s: System, a: Action)
    requires Distinct(cfg.topics) && Inv(cfg, s) && Apply(cfg, s, a).Some?
    ensures Inv(cfg, Apply(cfg, s, a).value)
  {
    hide StateInv, ReceivedInv, PoolInv, Apply, Distinct;
    match a
    case Plan => PlanKeepsInv(cfg, s);
    case Submit => SubmitKeepsInv(cfg, s);
    case Receive(k) =>
      ReceiveKeepsInv(cfg, s, k);
      ReceivePoolKept(cfg, s, k);
    case Save => ControllerKeepsInv(cfg, s, a);
    case Finish => ControllerKeepsInv(cfg, s, a);
    case Fail(_) => ControllerKeepsInv(cfg, s, a);
    case _ => PooledKeepsInv(cfg, s, a);
  }

  /** Safety: the invariant holds after every schedule. */
  lemma {:induction false} ReachableInv(cfg: Config, actions: seq<Action>)
    requires Distinct(cfg.topics) && Exec(cfg, actions).Some?
    ensures Inv(cfg, Exec(cfg, actions).value)
  {
    if actions == [] {
      InitialInv(cfg);
    } else {
      var n := |actions| - 1;
      ReachableInv(cfg, actions[..n]);
      StepKeepsInv(cfg, Exec(cfg, actions[..n]).value, actions[n]);
    }
  }

  lemma InitialInv(cfg: Config)
    ensures Inv(cfg, Initial(cfg))
  {
    assert Planned(cfg, 0) == {};
    assert Image(cfg, {}, {}) == cfg.start;
  }
}
