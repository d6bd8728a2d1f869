/**
  The pipe tee of `_run_logged_pipe` in benchmark/arc_bench/batch_runner.py: a reader thread that
  queues the child's lines and a sentinel, and a main loop that logs them under a deadline.
  A run is any sequence of actions of the reader, the main loop, the child and the clock.
*/
module PipeTee {
  import opened Wrappers

  /** A queued line, or the sentinel the reader leaves when it stops for whatever reason. */
  datatype Item = Line(text: string) | Sentinel

  datatype Control =
    | Top                    // the deadline check at the head of the loop
    | Get                    // output_queue.get
    | Write(text: string)
    | Check                  // the exit test after a sentinel or an empty queue
    | Normal
    | Expiring               // left the loop by the deadline
    | TimedOut

  datatype System = System(
    unread: seq<string>,     // what the child has still to deliver
    hand: Option<string>,    // read but not yet queued
    readerStopped: bool,
    readerFailed: bool,
    queue: seq<Item>,
    control: Control,
    readerDone: bool,        // the main loop has seen the sentinel
    log: seq<string>,
    exited: bool,
    expired: bool)

  datatype Action =
    | Read | Put | ReaderEnds | ReaderFails
    | ChildExits | Expire
    | CheckDeadline | Take | Empty | Log | CheckExit | Kill

  function Initial(output: seq<string>): System {
    System(output, None, false, false, [], Top, false, [], false, false)
  }

  /** The action's effect, or nothing when it is not enabled. `message` is the timeout notice. */
  function Apply(message: string, s: System, a: Action): Option<System> {
    match a
    case Read =>
      if !s.readerStopped && s.hand.None? && s.unread != []
      then Some(s.(hand := Some(s.unread[0]), unread := s.unread[1..])) else None
    case Put =>
      if s.hand.Some? then Some(s.(hand := None, queue := s.queue + [Line(s.hand.value)])) else None
    case ReaderEnds =>
      if !s.readerStopped && s.hand.None? && s.unread == []
      then Some(s.(readerStopped := true, queue := s.queue + [Sentinel])) else None
    case ReaderFails =>
      if !s.readerStopped && s.hand.None?
      then Some(s.(readerStopped := true, readerFailed := true, queue := s.queue + [Sentinel])) else None
    case ChildExits =>
      Some(s.(exited := true))
    case Expire =>
      Some(s.(expired := true))
    case CheckDeadline =>
      if s.control != Top then None
      else Some(s.(control := if s.expired && !s.exited then Expiring else Get))
    case Take =>
      if s.control != Get || s.queue == [] then None
      else if s.queue[0].Line? then Some(s.(queue := s.queue[1..], control := Write(s.queue[0].text)))
      else Some(s.(queue := s.queue[1..], control := Check, readerDone := true))
    case Empty =>
      if s.control == Get && s.queue == [] then Some(s.(control := Check)) else None
    case Log =>
      if s.control.Write? then Some(s.(log := s.log + [s.control.text], control := Top)) else None
    case CheckExit =>
      if s.control != Check then None
      else Some(s.(control := if s.exited && s.readerDone && s.queue == [] then Normal else Top))
    case Kill =>
      if s.control == Expiring then Some(s.(exited := true, log := s.log + [message], control := TimedOut)) else None
  }

  function Exec(message: string, output: seq<string>, actions: seq<Action>): Option<System> {
    if actions == [] then Some(Initial(output))
    else
      var before := Exec(message, output, actions[..|actions| - 1]);
      if before.None? then None else Apply(message, before.value, actions[|actions| - 1])
  }

  function Text(item: Item): seq<string> {
    if item.Line? then [item.text] else []
  }

  function Lines(items: seq<Item>): seq<string> {
    if items == [] then [] else Text(items[0]) + Lines(items[1..])
  }

  /** The log without the timeout notice. */
  function Logged(s: System): seq<string> {
    if s.control == TimedOut && s.log != [] then s.log[..|s.log| - 1] else s.log
  }

  function InWriter(s: System): seq<string> {
    if s.control.Write? then [s.control.text] else []
  }

  function InHand(s: System): seq<string> {
    if s.hand.Some? then [s.hand.value] else []
  }

  /** Every line is in exactly one place, and the places in order spell the output. */
  ghost predicate Conserved(s: System, output: seq<string>) {
    Joined(Logged(s), InWriter(s), Lines(s.queue), InHand(s), s.unread) == output
  }

  function Joined(a: seq<string>, b: seq<string>, c: seq<string>, d: seq<string>, e: seq<string>): seq<string> {
    a + b + c + d + e
  }

  /** Moving lines between neighbouring places keeps the whole. */
  lemma Handover(a: seq<string>, b: seq<string>, c: seq<string>, d: seq<string>, e: seq<string>,
                 x: seq<string>, y: seq<string>)
    ensures a + b == x + y ==> Joined(a, b, c, d, e) == Joined(x, y, c, d, e)
    ensures b + c == x + y ==> Joined(a, b, c, d, e) == Joined(a, x, y, d, e)
    ensures c + d == x + y ==> Joined(a, b, c, d, e) == Joined(a, b, x, y, e)
    ensures d + e == x + y ==> Joined(a, b, c, d, e) == Joined(a, b, c, x, y)
  {
    assert Joined(a, b, c, d, e) == (a + b) + c + d + e == a + (b + c) + d + e;
    assert Joined(a, b, c, d, e) == a + b + (c + d) + e == a + b + c + (d + e);
    assert Joined(x, y, c, d, e) == (x + y) + c + d + e;
    assert Joined(a, x, y, d, e) == a + (x + y) + d + e;
    assert Joined(a, b, x, y, e) == a + b + (x + y) + e;
    assert Joined(a, b, c, x, y) == a + b + c + (x + y);
  }

  /** The sentinel comes once, last, and after it nothing can follow. */
  ghost predicate SentinelLast(s: System) {
    && (forall i :: 0 <= i < |s.queue| && s.queue[i] == Sentinel ==> i == |s.queue| - 1 && s.readerStopped && !s.readerDone)
    && (s.readerStopped ==> s.hand.None? && (s.readerDone || (s.queue != [] && s.queue[|s.queue| - 1] == Sentinel)))
    && (s.readerDone ==> s.readerStopped && s.queue == [])
    && (s.readerStopped && !s.readerFailed ==> s.unread == [])
  }

  ghost predicate Inv(message: string, output: seq<string>, s: System) {
    Conserved(s, output) && SentinelLast(s) && Ended(message, s)
  }

  ghost predicate Ended(message: string, s: System) {
    && (s.control == Normal ==> s.readerDone && s.exited)
    && (s.control == Expiring ==> s.expired)
    && (s.control == TimedOut ==> s.expired && s.exited && s.log != [] && s.log[|s.log| - 1] == message)
  }

  lemma {:induction false} LinesSnoc(items: seq<Item>, item: Item)
    ensures Lines(items + [item]) == Lines(items) + Text(item)
  {
    hide Text;
    if items == [] {
      assert [] + [item] == [item] && [item][1..] == [];
    } else {
      assert (items + [item])[1..] == items[1..] + [item];
      LinesSnoc(items[1..], item);
    }
  }

  lemma LinesFirst(items: seq<Item>)
    requires items != []
    ensures Lines(items) == Text(items[0]) + Lines(items[1..])
  {
  }

  lemma SentinelConserves(s: System, output: seq<string>, failed: bool)
    requires Conserved(s, output)
    ensures Conserved(s.(readerStopped := true, readerFailed := failed, queue := s.queue + [Sentinel]), output)
  {
    hide Lines, Joined;
    LinesSnoc(s.queue, Sentinel);
    assert Lines(s.queue) + [] == Lines(s.queue);
  }

  predicate ByReader(a: Action) {
    a.Read? || a.Put? || a.ReaderEnds? || a.ReaderFails?
  }

  /** The reader passes each line on, from the pipe to its hand to the queue. */
  lemma ReaderConserves(message: string, output: seq<string>, s: System, a: Action)
    requires Conserved(s, output) && ByReader(a) && Apply(message, s, a).Some?
    ensures Conserved(Apply(message, s, a).value, output)
  {
    hide Lines, Joined;
    var s' := Apply(message, s, a).value;
    if a.ReaderEnds? || a.ReaderFails? {
      SentinelConserves(s, output, s'.readerFailed);
    } else {
      Handover(Logged(s), InWriter(s), Lines(s.queue), InHand(s), s.unread, InHand(s'), s'.unread);
      if a.Put? { LinesSnoc(s.queue, Line(s.hand.value)); }
      Handover(Logged(s), InWriter(s), Lines(s.queue), InHand(s), s.unread, Lines(s'.queue), InHand(s'));
    }
  }

  lemma TakeConserves(message: string, output: seq<string>, s: System)
    requires Conserved(s, output) && Apply(message, s, Take).Some?
    ensures Conserved(Apply(message, s, Take).value, output)
  {
    hide Lines, Joined;
    var s' := Apply(message, s, Take).value;
    LinesFirst(s.queue);
    assert InWriter(s) == [] && [] + Lines(s.queue) == Lines(s.queue);
    Handover(Logged(s), InWriter(s), Lines(s.queue), InHand(s), s.unread, InWriter(s'), Lines(s'.queue));
  }

  lemma LogConserves(message: string, output: seq<string>, s: System)
    requires Conserved(s, output) && Apply(message, s, Log).Some?
    ensures Conserved(Apply(message, s, Log).value, output)
  {
    hide Lines, Joined;
    var s' := Apply(message, s, Log).value;
    Handover(Logged(s), InWriter(s), Lines(s.queue), InHand(s), s.unread, Logged(s'), InWriter(s'));
  }

  /** The main loop passes each line on, from the queue to the log. */
  lemma MainConserves(message: string, output: seq<string>, s: System, a: Action)
    requires Conserved(s, output) && !ByReader(a) && Apply(message, s, a).Some?
    ensures Conserved(Apply(message, s, a).value, output)
  {
    if a.Take? {
      TakeConserves(message, output, s);
    } else if a.Log? {
      LogConserves(message, output, s);
    } else {
      hide Lines, Joined;
      var s' := Apply(message, s, a).value;
      assert a.Kill? ==> s'.log[..|s'.log| - 1] == s.log;
    }
  }

  lemma SentinelStep(message: string, s: System, a: Action)
    requires SentinelLast(s) && Apply(message, s, a).Some?
    ensures SentinelLast(Apply(message, s, a).value)
  {
    var s' := Apply(message, s, a).value;
    if a.Take? {
      assert forall i :: 0 <= i < |s'.queue| ==> s'.queue[i] == s.queue[i + 1];
      assert s.queue[0] == Sentinel ==> |s.queue| == 1;
    }
  }

  lemma EndedStep(message: string, s: System, a: Action)
    requires Ended(message, s) && Apply(message, s, a).Some?
    ensures Ended(message, Apply(message, s, a).value)
  {
  }

  lemma StepKeepsInv(message: string, output: seq<string>, s: System, a: Action)
    requires Inv(message, output, s) && Apply(message, s, a).Some?
    ensures Inv(message, output, Apply(message, s, a).value)
  {
    if ByReader(a) { ReaderConserves(message, output, s, a); } else { MainConserves(message, output, s, a); }
    SentinelStep(message, s, a);
    EndedStep(message, s, a);
    hide Conserved, SentinelLast, Ended, Apply;
  }

  /** Whatever the interleaving, logged, queued and unread lines spell the child's output. */
  lemma {:induction false} ReachableInv(message: string, output: seq<string>, actions: seq<Action>)
    requires Exec(message, output, actions).Some?
    ensures Inv(message, output, Exec(message, output, actions).value)
  {
    if actions == [] {
      assert [] + [] + [] + [] + output == output;
    } else {
      var n := |actions| - 1;
      ReachableInv(message, output, actions[..n]);
      StepKeepsInv(message, output, Exec(message, output, actions[..n]).value, actions[n]);
    }
  }

  /** A normal exit logged all the reader delivered, which is everything unless the reader failed. */
  lemma NormalExitComplete(message: string, output: seq<string>, actions: seq<Action>)
    requires Exec(message, output, actions).Some? && Exec(message, output, actions).value.control == Normal
    ensures var s := Exec(message, output, actions).value;
      && s.exited && s.log + s.unread == output
      && (!s.readerFailed ==> s.log == output)
  {
    hide Exec;
    ReachableInv(message, output, actions);
    var s := Exec(message, output, actions).value;
    assert s.log + [] + [] + [] + s.unread == s.log + s.unread;
  }

  /** A timeout leaves a prefix of the output and the notice; at any time the log is a prefix. */
  lemma LogIsPrefix(message: string, output: seq<string>, actions: seq<Action>)
    requires Exec(message, output, actions).Some?
    ensures var s := Exec(message, output, actions).value;
      && Logged(s) <= output
      && (s.control == TimedOut ==> s.log == Logged(s) + [message])
  {
    hide Exec, Lines;
    ReachableInv(message, output, actions);
    var s := Exec(message, output, actions).value;
    assert Logged(s) + InWriter(s) + Lines(s.queue) + InHand(s) + s.unread
        == Logged(s) + (InWriter(s) + Lines(s.queue) + InHand(s) + s.unread);
  }

  // ---------------------------------------------------------------------------------------------
  // The loop ends once child and reader have
  // ---------------------------------------------------------------------------------------------

  /** The main loop's own next action. */
  function MainAction(s: System): Action {
    match s.control
    case Top => CheckDeadline
    case Get => if s.queue == [] then Empty else Take
    case Write(_) => Log
    case Check => CheckExit
    case _ => Kill
  }

  function RunMain(message: string, s: System, n: nat): System
    decreases n
  {
    if n == 0 || Apply(message, s, MainAction(s)).None? then s
    else RunMain(message, Apply(message, s, MainAction(s)).value, n - 1)
  }

  /** How many steps the main loop still needs once child and reader have stopped. */
  function Remaining(s: System): nat {
    match s.control
    case Top => 3 * |s.queue| + 4
    case Get => 3 * |s.queue| + 3
    case Write(_) => 3 * |s.queue| + 5
    case Check => if s.readerDone then 1 else 3 * |s.queue| + 5
    case _ => 0
  }

  lemma NormalStays(message: string, s: System, n: nat)
    requires s.control == Normal
    ensures RunMain(message, s, n) == s
  {
  }

  lemma MainActionAdvances(message: string, output: seq<string>, s: System)
    requires Inv(message, output, s) && s.exited && s.readerStopped
    requires !s.control.Expiring? && !s.control.TimedOut? && !s.control.Normal?
    ensures Apply(message, s, MainAction(s)).Some?
    ensures var s' := Apply(message, s, MainAction(s)).value;
      && Remaining(s') < Remaining(s)
      && s'.exited && s'.readerStopped && !s'.control.Expiring? && !s'.control.TimedOut?
  {
    hide Conserved;
  }

  /** With child and reader stopped, the main loop alone drains the queue and exits normally. */
  lemma {:induction false} LoopDrains(message: string, output: seq<string>, s: System, n: nat)
    requires Inv(message, output, s) && s.exited && s.readerStopped
    requires !s.control.Expiring? && !s.control.TimedOut?
    requires n >= Remaining(s)
    ensures RunMain(message, s, n).control == Normal
    decreases n
  {
    hide Inv, Remaining, MainAction, Apply;
    if s.control != Normal {
      MainActionAdvances(message, output, s);
      StepKeepsInv(message, output, s, MainAction(s));
      LoopDrains(message, output, Apply(message, s, MainAction(s)).value, n - 1);
    } else {
      NormalStays(message, s, n);
    }
  }

  // ---------------------------------------------------------------------------------------------
  // The reader reaches the end, and everything is logged
  // ---------------------------------------------------------------------------------------------

  /** The reader's own next action. */
  function ReaderAction(s: System): Action {
    if s.hand.Some? then Put else if s.unread != [] then Read else ReaderEnds
  }

  function RunReader(message: string, s: System, n: nat): System
    decreases n
  {
    if n == 0 || Apply(message, s, ReaderAction(s)).None? then s
    else RunReader(message, Apply(message, s, ReaderAction(s)).value, n - 1)
  }

  lemma StoppedStays(message: string, s: System, n: nat)
    requires s.readerStopped && s.hand.None?
    ensures RunReader(message, s, n) == s
  {
  }

  lemma ReaderActionAdvances(message: string, s: System)
    requires !s.readerStopped
    ensures Apply(message, s, ReaderAction(s)).Some?
    ensures var s' := Apply(message, s, ReaderAction(s)).value;
      && s' == s.(unread := s'.unread, hand := s'.hand, queue := s'.queue, readerStopped := s'.readerStopped)
      && (s'.readerStopped ==> s'.hand.None? && s'.unread == [])
      && (!s'.readerStopped ==> 2 * |s'.unread| + |InHand(s')| < 2 * |s.unread| + |InHand(s)|)
  {
  }

  /** A reader that has not stopped can always go on, and alone comes to the end of the output. */
  lemma {:induction false} ReaderFinishes(message: string, s: System, n: nat)
    requires !s.readerStopped && n > 2 * |s.unread| + |InHand(s)|
    ensures var s' := RunReader(message, s, n);
      && s'.readerStopped && s'.unread == [] && s'.hand == None
      && s' == s.(unread := [], hand := None, queue := s'.queue, readerStopped := true)
    decreases n
  {
    hide Apply, ReaderAction;
    ReaderActionAdvances(message, s);
    var next := Apply(message, s, ReaderAction(s)).value;
    if next.readerStopped { StoppedStays(message, next, n - 1); } else { ReaderFinishes(message, next, n - 1); }
  }

  lemma {:induction false} ReaderKeepsInv(message: string, output: seq<string>, s: System, n: nat)
    requires Inv(message, output, s)
    ensures Inv(message, output, RunReader(message, s, n))
    decreases n
  {
    hide Inv, Apply, ReaderAction;
    if n > 0 && Apply(message, s, ReaderAction(s)).Some? {
      StepKeepsInv(message, output, s, ReaderAction(s));
      ReaderKeepsInv(message, output, Apply(message, s, ReaderAction(s)).value, n - 1);
    }
  }

  lemma {:induction false} MainKeepsInv(message: string, output: seq<string>, s: System, n: nat)
    requires Inv(message, output, s)
    ensures Inv(message, output, RunMain(message, s, n))
    decreases n
  {
    hide Inv, Apply, MainAction;
    if n > 0 && Apply(message, s, MainAction(s)).Some? {
      StepKeepsInv(message, output, s, MainAction(s));
      MainKeepsInv(message, output, Apply(message, s, MainAction(s)).value, n - 1);
    }
  }

  /** The loop does not touch what is the reader's own. */
  lemma {:induction false} MainLeavesReader(message: string, s: System, n: nat)
    ensures var s' := RunMain(message, s, n); s'.unread == s.unread && s'.hand == s.hand
    decreases n
  {
    hide Apply, MainAction;
    if n > 0 && Apply(message, s, MainAction(s)).Some? {
      MainActionIsMain(s);
      MainStepLeavesReader(message, s, MainAction(s));
      MainLeavesReader(message, Apply(message, s, MainAction(s)).value, n - 1);
    }
  }

  lemma MainActionIsMain(s: System)
    ensures !ByReader(MainAction(s))
  {
  }

  lemma MainStepLeavesReader(message: string, s: System, a: Action)
    requires !ByReader(a) && Apply(message, s, a).Some?
    ensures var s' := Apply(message, s, a).value; s'.unread == s.unread && s'.hand == s.hand
  {
  }

  lemma Regroup(a: seq<Action>, b: seq<Action>, c: seq<Action>)
    ensures a + (b + c) == a + b + c
  {
  }

  lemma StepExtends(message: string, output: seq<string>, actions: seq<Action>, a: Action)
    requires Exec(message, output, actions).Some? && Apply(message, Exec(message, output, actions).value, a).Some?
    ensures Exec(message, output, actions + [a]) == Apply(message, Exec(message, output, actions).value, a)
  {
    hide Apply;
    assert (actions + [a])[..|actions|] == actions;
  }

  lemma {:induction false} ReaderExtends(message: string, output: seq<string>, actions: seq<Action>, n: nat)
    returns (more: seq<Action>)
    requires Exec(message, output, actions).Some?
    ensures Exec(message, output, actions + more) == Some(RunReader(message, Exec(message, output, actions).value, n))
    decreases n
  {
    hide Exec, Apply, ReaderAction;
    var s := Exec(message, output, actions).value;
    var a := ReaderAction(s);
    if n == 0 || Apply(message, s, a).None? {
      more := [];
      assert actions + [] == actions;
    } else {
      StepExtends(message, output, actions, a);
      var rest := ReaderExtends(message, output, actions + [a], n - 1);
      more := [a] + rest;
      Regroup(actions, [a], rest);
    }
  }

  lemma OneStep(message: string, s: System, n: nat)
    requires n > 0 && Apply(message, s, MainAction(s)).Some?
    ensures RunMain(message, s, n) == RunMain(message, Apply(message, s, MainAction(s)).value, n - 1)
  {
    hide Apply, MainAction;
  }

  lemma NoStep(message: string, s: System, n: nat)
    requires n == 0 || Apply(message, s, MainAction(s)).None?
    ensures RunMain(message, s, n) == s
  {
    hide Apply, MainAction;
  }

  lemma {:induction false} MainExtends(message: string, output: seq<string>, actions: seq<Action>, n: nat)
    returns (more: seq<Action>)
    requires Exec(message, output, actions).Some?
    ensures Exec(message, output, actions + more) == Some(RunMain(message, Exec(message, output, actions).value, n))
    decreases n
  {
    hide Exec, Apply, MainAction, RunMain;
    var s := Exec(message, output, actions).value;
    var a := MainAction(s);
    if n == 0 || Apply(message, s, a).None? {
      more := [];
      NoStep(message, s, n);
      assert actions + [] == actions;
    } else {
      OneStep(message, s, n);
      StepExtends(message, output, actions, a);
      var rest := MainExtends(message, output, actions + [a], n - 1);
      more := [a] + rest;
      Regroup(actions, [a], rest);
    }
  }

  lemma ReaderDone(message: string, output: seq<string>, s: System, n: nat)
    requires Inv(message, output, s) && !s.readerFailed && n > 2 * |s.unread| + |InHand(s)|
    ensures var read := RunReader(message, s, n);
      && Inv(message, output, read) && read.readerStopped && read.unread == [] && read.hand == None
      && read.control == s.control
  {
    ReaderKeepsInv(message, output, s, n);
    if s.readerStopped { StoppedStays(message, s, n); } else { ReaderFinishes(message, s, n); }
    hide RunReader, Conserved;
  }

  /** Child and reader have ended, and nothing is left to read. */
  ghost predicate Ready(message: string, output: seq<string>, s: System) {
    && Inv(message, output, s) && s.exited && s.readerStopped && s.unread == [] && s.hand == None
    && s.control != Expiring && s.control != TimedOut
  }

  lemma LoopCompletes(message: string, output: seq<string>, s: System)
    requires Ready(message, output, s)
    ensures var done := RunMain(message, s, Remaining(s)); done.control == Normal && done.log == output
  {
    hide Inv, RunMain, Remaining;
    LoopDrains(message, output, s, Remaining(s));
    MainKeepsInv(message, output, s, Remaining(s));
    MainLeavesReader(message, s, Remaining(s));
    NormalIsWhole(message, output, RunMain(message, s, Remaining(s)));
  }

  lemma GetsReady(message: string, output: seq<string>, actions: seq<Action>) returns (more: seq<Action>)
    requires Exec(message, output, actions).Some?
    requires var s := Exec(message, output, actions).value;
      !s.readerFailed && s.control != Expiring && s.control != TimedOut
    ensures var ready := Exec(message, output, actions + more); ready.Some? && Ready(message, output, ready.value)
  {
    hide Exec, RunReader, Inv, Apply;
    var s := Exec(message, output, actions).value;
    var n := 2 * |s.unread| + |InHand(s)| + 1;
    ReachableInv(message, output, actions);
    ReaderDone(message, output, s, n);
    var reading := ReaderExtends(message, output, actions, n);
    var read := RunReader(message, s, n);
    ExitKeepsInv(message, output, read);
    StepExtends(message, output, actions + reading, ChildExits);
    more := reading + [ChildExits];
    assert actions + more == actions + reading + [ChildExits];
  }

  /**
    Every run whose reader has not failed and whose loop has not met the deadline can be continued to a normal exit:
    the reader comes to the end, the child exits, the loop drains the queue, and the log is the whole output.
  */
  lemma CompletesRun(message: string, output: seq<string>, actions: seq<Action>) returns (more: seq<Action>)
    requires Exec(message, output, actions).Some?
    requires var s := Exec(message, output, actions).value;
      !s.readerFailed && s.control != Expiring && s.control != TimedOut
    ensures var done := Exec(message, output, actions + more);
      done.Some? && done.value.control == Normal && done.value.log == output
  {
    hide Exec, RunMain, Ready, Remaining;
    var first := GetsReady(message, output, actions);
    var ready := Exec(message, output, actions + first).value;
    LoopCompletes(message, output, ready);
    var draining := MainExtends(message, output, actions + first, Remaining(ready));
    more := first + draining;
    assert actions + more == actions + first + draining;
  }

  predicate ByLoop(a: Action) {
    !ByReader(a) && a != ChildExits && a != Expire
  }

  /** The loop is a sequential program: what it does next is determined, until it has ended. */
  lemma LoopDetermined(message: string, s: System, a: Action)
    requires ByLoop(a)
    ensures Apply(message, s, a).Some? <==> s.control != Normal && s.control != TimedOut && a == MainAction(s)
  {
  }

  lemma ExitKeepsInv(message: string, output: seq<string>, s: System)
    requires Inv(message, output, s)
    ensures var next := Apply(message, s, ChildExits);
      next == Some(s.(exited := true)) && Inv(message, output, next.value) && Remaining(next.value) == Remaining(s)
  {
    hide Inv;
    StepKeepsInv(message, output, s, ChildExits);
  }

  lemma NormalIsWhole(message: string, output: seq<string>, s: System)
    requires Inv(message, output, s) && s.control == Normal && s.unread == [] && s.hand == None
    ensures s.log == output
  {
    assert s.log + [] + [] + [] + [] == s.log;
  }

  // ---------------------------------------------------------------------------------------------
  // The deadline
  // ---------------------------------------------------------------------------------------------

  /** Before the first action nothing is read, queued or logged, and the child runs within its time. */
  lemma StartsFresh(message: string, output: seq<string>)
    ensures var s := Exec(message, output, []).value;
      && s.unread == output && s.hand == None && s.queue == [] && s.log == []
      && !s.readerStopped && !s.readerFailed && !s.readerDone && !s.exited && !s.expired && s.control == Top
  {
  }

  lemma ReaderFlags(message: string, s: System, a: Action)
    requires ByReader(a) && Apply(message, s, a).Some?
    ensures var s' := Apply(message, s, a).value;
      && s'.exited == s.exited && s'.expired == s.expired && s'.control == s.control
      && (s'.readerFailed <==> s.readerFailed || a.ReaderFails?)
      && (s'.readerStopped <==> s.readerStopped || a.ReaderEnds? || a.ReaderFails?)
  {
  }

  lemma MainFlags(message: string, s: System, a: Action)
    requires !ByReader(a) && Apply(message, s, a).Some?
    ensures var s' := Apply(message, s, a).value;
      && s'.readerFailed == s.readerFailed && s'.readerStopped == s.readerStopped
      && (s'.exited <==> s.exited || a.ChildExits? || a.Kill?)
      && (s'.expired <==> s.expired || a.Expire?)
      && (s'.control == TimedOut <==> s.control == TimedOut || a.Kill?)
  {
  }

  /** The child has exited if and only if it did so by itself or was killed; the time is up if the clock said so. */
  lemma {:induction false} FlagsExactly(message: string, output: seq<string>, actions: seq<Action>)
    requires Exec(message, output, actions).Some?
    ensures var s := Exec(message, output, actions).value;
      && (s.exited <==> ChildExits in actions || Kill in actions)
      && (s.expired <==> Expire in actions)
      && (s.readerFailed <==> ReaderFails in actions)
      && (s.readerStopped <==> ReaderEnds in actions || ReaderFails in actions)
      && (s.control == TimedOut <==> Kill in actions)
  {
    if actions != [] {
      var n := |actions| - 1;
      FlagsExactly(message, output, actions[..n]);
      var before := Exec(message, output, actions[..n]).value;
      hide Apply, Initial;
      if ByReader(actions[n]) { ReaderFlags(message, before, actions[n]); } else { MainFlags(message, before, actions[n]); }
      assert actions == actions[..n] + [actions[n]];
    }
  }

  /** The child killed, and the notice logged. */
  function Killed(message: string, s: System): System {
    s.(exited := true, log := s.log + [message], control := TimedOut)
  }

  lemma KillsAtTop(message: string, s: System, n: nat)
    requires s.control == Top && s.expired && !s.exited && n >= 2
    ensures RunMain(message, s, n) == Killed(message, s)
  {
    var expiring := s.(control := Expiring);
    OneStep(message, s, n);
    KillsExpiring(message, expiring, n - 1);
  }

  lemma KillsExpiring(message: string, s: System, n: nat)
    requires s.control == Expiring && n >= 1
    ensures RunMain(message, s, n) == Killed(message, s)
  {
    OneStep(message, s, n);
    assert RunMain(message, Killed(message, s), n - 1) == Killed(message, s);
  }

  lemma KillsAtCheck(message: string, s: System, n: nat)
    requires s.control == Check && s.expired && !s.exited && n >= 3
    ensures RunMain(message, s, n) == Killed(message, s)
  {
    OneStep(message, s, n);
    KillsAtTop(message, s.(control := Top), n - 1);
  }

  lemma KillsAtWrite(message: string, s: System, n: nat)
    requires s.control.Write? && s.expired && !s.exited && n >= 3
    ensures RunMain(message, s, n) == Killed(message, s.(log := s.log + [s.control.text]))
  {
    OneStep(message, s, n);
    KillsAtTop(message, s.(log := s.log + [s.control.text], control := Top), n - 1);
  }

  lemma KillsAtGet(message: string, s: System, n: nat)
    requires s.control == Get && s.expired && !s.exited && n >= 4
    ensures var s' := RunMain(message, s, n);
      && s'.control == TimedOut && s'.exited
      && s'.log == s.log + (if s.queue != [] && s.queue[0].Line? then [s.queue[0].text] else []) + [message]
  {
    OneStep(message, s, n);
    hide RunMain;
    if s.queue == [] {
      KillsAtCheck(message, s.(control := Check), n - 1);
    } else if s.queue[0].Line? {
      KillsAtWrite(message, s.(queue := s.queue[1..], control := Write(s.queue[0].text)), n - 1);
    } else {
      KillsAtCheck(message, s.(queue := s.queue[1..], control := Check, readerDone := true), n - 1);
    }
  }

  /**
    An expired deadline ends the loop of a running child after at most four of its own steps, whatever is queued:
    the child is killed, and the log gets the line it holds or the next in the queue, if any, and the notice.
  */
  lemma DeadlineEnds(message: string, s: System, n: nat)
    requires s.expired && !s.exited && s.control != Normal && s.control != TimedOut && n >= 4
    ensures var s' := RunMain(message, s, n);
      && s'.control == TimedOut && s'.exited
      && s'.log == match s.control
                   case Write(text) => s.log + [text, message]
                   case Get => s.log + (if s.queue != [] && s.queue[0].Line? then [s.queue[0].text] else []) + [message]
                   case _ => s.log + [message]
  {
    hide RunMain, Apply;
    match s.control
    case Top => KillsAtTop(message, s, n);
    case Expiring => KillsExpiring(message, s, n);
    case Write(text) => KillsAtWrite(message, s, n);
    case Check => KillsAtCheck(message, s, n);
    case Get => KillsAtGet(message, s, n);
  }
}
