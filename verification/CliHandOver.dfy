/** src/common/Cli.cpp: Dispatch on the command line thread and Execute on the main thread, interleaved
    step by step, before Stop. */
module CliHandOver {
  import opened Wrappers

  type Command = nat

  datatype Task = Task(command: Command, arguments: seq<string>)

  datatype Thread = CliThread | MainThread

  /** Where Dispatch stands: outside; at the lock; before either assignment; at the loop test; inside
      wait; woken, and at the lock again. */
  datatype CliPc =
    | Outside
    | AtLock(command: Option<Command>, arguments: seq<string>)
    | SettingCommand(command: Option<Command>, arguments: seq<string>)
    | SettingArguments(arguments: seq<string>)
    | Testing
    | Waiting
    | Woken

  /** Where Execute stands: outside; past the test without the lock; about to run the command; about to
      clear it; about to unlock; about to notify. */
  datatype MainPc = Outside | AtLock | Running | Clearing | Unlocking | Notifying

  /** The shared variables, both program counters, and two logs: the commands handed to Dispatch that are
      not null, and what was run with which arguments. */
  datatype State = State(
    lock: Option<Thread>, command: Option<Command>, arguments: seq<string>,
    cli: CliPc, main: MainPc,
    dispatched: seq<Task>, executed: seq<Task>)

  predicate Init(s: State) {
    && s.lock == None && s.command == None && s.cli == CliPc.Outside && s.main == MainPc.Outside
    && s.dispatched == [] && s.executed == []
  }

  /** A line was read: any command, or null for one that does not exist, with any arguments. */
  ghost predicate CliStep(s: State, t: State) {
    match s.cli
    case Outside =>
      exists command: Option<Command>, arguments: seq<string> :: t == s.(cli := CliPc.AtLock(command, arguments))
    case AtLock(command, arguments) =>
      s.lock == None && t == s.(lock := Some(CliThread), cli := SettingCommand(command, arguments))
    case SettingCommand(command, arguments) =>
      t == s.(command := command, cli := SettingArguments(arguments),
              dispatched := if command == None then s.dispatched else s.dispatched + [Task(command.value, arguments)])
    case SettingArguments(arguments) =>
      t == s.(arguments := arguments, cli := Testing)
    case Testing =>
      t == if s.command != None then s.(lock := None, cli := Waiting) else s.(lock := None, cli := CliPc.Outside)
    case Waiting => false
    case Woken =>
      s.lock == None && t == s.(lock := Some(CliThread), cli := Testing)
  }

  predicate MainStep(s: State, t: State) {
    match s.main
    case Outside =>
      t == if s.command != None then s.(main := MainPc.AtLock) else s.(main := Notifying)
    case AtLock =>
      s.lock == None && t == s.(lock := Some(MainThread), main := Running)
    case Running =>
      s.command != None && t == s.(main := Clearing, executed := s.executed + [Task(s.command.value, s.arguments)])
    case Clearing =>
      t == s.(command := None, main := Unlocking)
    case Unlocking =>
      t == s.(lock := None, main := Notifying)
    case Notifying =>
      t == s.(main := MainPc.Outside, cli := if s.cli == Waiting then Woken else s.cli)
  }

  /** A condition variable may wake up by itself. */
  predicate SpuriousWakeup(s: State, t: State) {
    s.cli == Waiting && t == s.(cli := Woken)
  }

  ghost predicate Next(s: State, t: State) {
    CliStep(s, t) || MainStep(s, t) || SpuriousWakeup(s, t)
  }

  ghost predicate Steps(run: seq<State>) {
    run != [] && forall i :: 0 <= i < |run| - 1 ==> Next(run[i], run[i + 1])
  }

  ghost predicate Execution(run: seq<State>) {
    Steps(run) && Init(run[0])
  }

  // ---- the invariant --------------------------------------------------------------------------------

  predicate CliHolds(s: State) {
    s.cli.SettingCommand? || s.cli.SettingArguments? || s.cli == Testing
  }

  predicate MainHolds(s: State) {
    s.main == Running || s.main == Clearing || s.main == Unlocking
  }

  /** The arguments that belong to the command, even while they are still to be stored. */
  function PendingArguments(s: State): seq<string> {
    if s.cli.SettingArguments? then s.cli.arguments else s.arguments
  }

  predicate Inv(s: State) {
    && (s.lock == Some(CliThread) <==> CliHolds(s))
    && (s.lock == Some(MainThread) <==> MainHolds(s))
    // No command is left from an earlier call.
    && (s.cli == CliPc.Outside || s.cli.AtLock? || s.cli.SettingCommand? ==> s.command == None)
    // A command seen by the test without the lock is still there.
    && (s.main == MainPc.AtLock || s.main == Running || s.main == Clearing ==> s.command != None)
    && (s.main == Unlocking ==> s.command == None)
    && (if s.command != None && s.main != Clearing then
          s.dispatched == s.executed + [Task(s.command.value, PendingArguments(s))]
        else s.dispatched == s.executed)
    // No wake-up is lost.
    && (s.cli == Waiting && s.command == None ==> s.main == Unlocking || s.main == Notifying)
  }

  lemma InvStep(s: State, t: State)
    requires Inv(s) && Next(s, t)
    ensures Inv(t)
  {
  }

  lemma {:induction false} InvAlways(run: seq<State>, i: nat)
    requires Execution(run) && i < |run|
    ensures Inv(run[i])
  {
    hide Inv, Next, Init;
    if i == 0 {
      InitInv(run[0]);
    } else {
      InvAlways(run, i - 1);
      InvStep(run[i - 1], run[i]);
    }
  }

  lemma InitInv(s: State)
    requires Init(s)
    ensures Inv(s)
  {
  }

  // ---- safety over all runs -----------------------------------------------------------------------------

  /** At every moment of every run what was executed is what was dispatched, in order and with its own
      arguments, with at most one command outstanding. */
  lemma ExecutedIsPrefix(run: seq<State>, i: nat)
    requires Execution(run) && i < |run|
    ensures run[i].executed <= run[i].dispatched && |run[i].dispatched| <= |run[i].executed| + 1
  {
    InvAlways(run, i);
  }

  /** Execute never follows a null command although it tests it without the lock, and it runs exactly the
      command that is outstanding. */
  lemma RunsTheOutstanding(run: seq<State>, i: nat)
    requires Execution(run) && i < |run| && run[i].main == Running
    ensures run[i].command != None
    ensures run[i].dispatched == run[i].executed + [Task(run[i].command.value, run[i].arguments)]
  {
    InvAlways(run, i);
  }

  /** When Dispatch returns, everything handed to it so far has been executed. */
  lemma ReturnsAfterExecution(run: seq<State>, i: nat)
    requires Execution(run) && i < |run| && run[i].cli == CliPc.Outside
    ensures run[i].executed == run[i].dispatched
  {
    InvAlways(run, i);
  }

  // ---- no deadlock, no lost wake-up ------------------------------------------------------------------------

  /** How far Dispatch is from its return if each step is chosen well. */
  function Distance(s: State): nat {
    match s.cli
    case Outside => 0
    case AtLock(_, _) => 40 + (if MainHolds(s) then 1 else 0)
    case SettingCommand(_, _) => 39
    case SettingArguments(_) => 38
    case Testing => if s.command != None then 37 else 1
    case Waiting => (if s.command != None then 10 else 6) + MainDistance(s)
    case Woken => if s.command != None then 10 + MainDistance(s) else 2 + (if MainHolds(s) then 1 else 0)
  }

  function MainDistance(s: State): nat {
    match s.main
    case Notifying => if s.command != None then 20 else 1
    case Outside => 19
    case AtLock => 18
    case Running => 17
    case Clearing => 16
    case Unlocking => 2
  }

  /** The thread that brings Dispatch closer to its return. */
  function Chosen(s: State): Thread {
    if CliHolds(s) then CliThread
    else if MainHolds(s) then MainThread
    else if s.cli.AtLock? || (s.cli == Woken && s.command == None) then CliThread
    else MainThread
  }

  /** The next state of a thread that does not start a new call. */
  function After(s: State): State
    requires Inv(s) && s.cli != CliPc.Outside
  {
    if Chosen(s) == CliThread then
      match s.cli
      case AtLock(command, arguments) => s.(lock := Some(CliThread), cli := SettingCommand(command, arguments))
      case SettingCommand(command, arguments) =>
        s.(command := command, cli := SettingArguments(arguments),
           dispatched := if command == None then s.dispatched else s.dispatched + [Task(command.value, arguments)])
      case SettingArguments(arguments) => s.(arguments := arguments, cli := Testing)
      case Testing =>
        if s.command != None then s.(lock := None, cli := Waiting) else s.(lock := None, cli := CliPc.Outside)
      case Woken => s.(lock := Some(CliThread), cli := Testing)
    else
      match s.main
      case Outside => if s.command != None then s.(main := MainPc.AtLock) else s.(main := Notifying)
      case AtLock => s.(lock := Some(MainThread), main := Running)
      case Running => s.(main := Clearing, executed := s.executed + [Task(s.command.value, s.arguments)])
      case Clearing => s.(command := None, main := Unlocking)
      case Unlocking => s.(lock := None, main := Notifying)
      case Notifying => s.(main := MainPc.Outside, cli := if s.cli == Waiting then Woken else s.cli)
  }

  lemma AfterComesCloser(s: State)
    requires Inv(s) && s.cli != CliPc.Outside
    ensures (CliStep(s, After(s)) || MainStep(s, After(s))) && Inv(After(s)) && Distance(After(s)) < Distance(s)
  {
    if s.lock.Some? {
      assert s.lock == Some(s.lock.value) && (s.lock.value == CliThread || s.lock.value == MainThread);
    }
    if Chosen(s) == CliThread {
      assert CliStep(s, After(s));
    } else {
      assert MainStep(s, After(s));
    }
  }

  lemma OutsideIsDone(s: State)
    requires Inv(s) && s.cli == CliPc.Outside
    ensures s.executed == s.dispatched
  {
  }

  lemma DispatchedGrows(s: State)
    requires Inv(s) && s.cli != CliPc.Outside
    ensures s.dispatched <= After(s).dispatched
  {
  }

  /** From every state a run can reach, steps of the two threads alone, without spurious wake-ups, lead to
      the return of Dispatch with everything executed. */
  lemma {:induction false} DispatchCanReturn(s: State) returns (run: seq<State>)
    requires Inv(s)
    ensures Steps(run) && run[0] == s
    ensures forall i :: 0 <= i < |run| - 1 ==> CliStep(run[i], run[i + 1]) || MainStep(run[i], run[i + 1])
    ensures var last := run[|run| - 1];
      last.cli == CliPc.Outside && last.executed == last.dispatched && s.dispatched <= last.dispatched
    decreases Distance(s)
  {
    hide Inv, CliStep, MainStep, Distance, After;
    run := [s];
    if s.cli == CliPc.Outside {
      OutsideIsDone(s);
    } else {
      AfterComesCloser(s);
      DispatchedGrows(s);
      var rest := DispatchCanReturn(After(s));
      run := [s] + rest;
      assert forall i :: 0 < i < |run| ==> run[i] == rest[i - 1];
    }
  }

  /** No run is stuck: each can be continued until Dispatch has returned and nothing is outstanding. */
  lemma EveryRunCanFinish(run: seq<State>) returns (longer: seq<State>)
    requires Execution(run)
    ensures Execution(longer) && run <= longer
    ensures var last := longer[|longer| - 1]; last.cli == CliPc.Outside && last.executed == last.dispatched
  {
    hide Inv, CliStep, MainStep, SpuriousWakeup, Init;
    InvAlways(run, |run| - 1);
    var rest := DispatchCanReturn(run[|run| - 1]);
    longer := run + rest[1..];
    forall i | 0 <= i < |longer| - 1
      ensures Next(longer[i], longer[i + 1])
    {
      if i >= |run| - 1 {
        assert longer[i] == rest[i - (|run| - 1)] && longer[i + 1] == rest[i - (|run| - 1) + 1];
      }
    }
  }
}
