/** Starting and stopping inference: the over-the-air update hooks command the inference task
    through two bits of an event group. A command is two calls, clear then set; the task
    waits for one bit and clears it in the same atomic step. */
module InferenceControl {

  datatype Command = Start | Stop

  datatype ControllerPc = Idle | Setting(command: Command)

  /** The inference task: waiting for START, preparing the model (first start only), polling
      STOP, running an inference, or returned after a failure. */
  datatype TaskPc = AwaitFirstStart | Preparing | Polling | Inferring | AwaitRestart | Exited

  datatype State = State(
    startBit: bool,
    stopBit: bool,
    controller: ControllerPc,
    task: TaskPc,
    issued: seq<Command>,    // commands completed by the controller
    handled: seq<Command>)   // bits consumed by the task

  datatype Action =
    | Clear(command: Command)  // first call of a command: clear the opposite bit
    | Set                      // second call: set the command's own bit
    | ConsumeStart
    | Prepare(ok: bool)
    | ConsumeStop
    | PollTimeout
    | Infer(ok: bool)

  const INITIAL := State(false, false, Idle, AwaitFirstStart, [], [])

  predicate Enabled(s: State, a: Action) {
    match a
    case Clear(_) => s.controller == Idle
    case Set => s.controller.Setting?
    case ConsumeStart => s.task in {AwaitFirstStart, AwaitRestart} && s.startBit
    case Prepare(_) => s.task == Preparing
    case ConsumeStop => s.task == Polling && s.stopBit
    case PollTimeout => s.task == Polling && !s.stopBit
    case Infer(_) => s.task == Inferring
  }

  function Apply(s: State, a: Action): State
    requires Enabled(s, a)
  {
    match a
    case Clear(Start) => s.(controller := Setting(Start), stopBit := false)
    case Clear(Stop) => s.(controller := Setting(Stop), startBit := false)
    case Set =>
      var command := s.controller.command;
      s.(controller := Idle, issued := s.issued + [command],
         startBit := command == Start || s.startBit,
         stopBit := command == Stop || s.stopBit)
    case ConsumeStart =>
      s.(startBit := false, handled := s.handled + [Start],
         task := if s.task == AwaitFirstStart then Preparing else Polling)
    case Prepare(ok) => s.(task := if ok then Polling else Exited)
    case ConsumeStop => s.(stopBit := false, handled := s.handled + [Stop], task := AwaitRestart)
    case PollTimeout => s.(task := Inferring)
    case Infer(ok) => s.(task := if ok then Polling else Exited)
  }

  ghost predicate Run(states: seq<State>, actions: seq<Action>) {
    && |states| == |actions| + 1
    && states[0] == INITIAL
    && forall i :: 0 <= i < |actions| ==>
         Enabled(states[i], actions[i]) && states[i + 1] == Apply(states[i], actions[i])
  }

  predicate Paused(task: TaskPc) {
    task in {AwaitFirstStart, AwaitRestart}
  }

  predicate Active(task: TaskPc) {
    task in {Preparing, Polling, Inferring}
  }

  predicate LastIs(commands: seq<Command>, command: Command) {
    commands != [] && commands[|commands| - 1] == command
  }

  /** What every step keeps. */
  predicate Inv(s: State) {
    && !(s.startBit && s.stopBit)
    && (s.controller == Setting(Start) ==> !s.stopBit)
    && (s.controller == Setting(Stop) ==> !s.startBit)
    && (s.startBit ==> LastIs(s.issued, Start))
    && (s.stopBit ==> LastIs(s.issued, Stop))
    && (s.controller == Idle && LastIs(s.issued, Start) ==> s.startBit || !Paused(s.task))
    && (s.controller == Idle && LastIs(s.issued, Stop) ==> s.stopBit || !Active(s.task))
    && (s.issued == [] ==> s.task == AwaitFirstStart)
  }

  lemma StepKeepsInv(s: State, a: Action)
    requires Inv(s) && Enabled(s, a)
    ensures Inv(Apply(s, a))
  {
  }

  lemma {:induction false} RunInv(states: seq<State>, actions: seq<Action>, i: nat)
    requires Run(states, actions) && i < |states|
    ensures Inv(states[i])
  {
    if i > 0 {
      RunInv(states, actions, i - 1);
      StepKeepsInv(states[i - 1], actions[i - 1]);
    }
  }

  // ----- Main results

  /** In every interleaving the two bits are never both set; between commands the task is
      where the last command wants it, or that command is still pending in its bit. */
  lemma BetweenCommands(states: seq<State>, actions: seq<Action>, i: nat)
    requires Run(states, actions) && i < |states|
    ensures !(states[i].startBit && states[i].stopBit)
    ensures states[i].controller == Idle && LastIs(states[i].issued, Stop) ==>
              !states[i].startBit && (states[i].stopBit || !Active(states[i].task))
    ensures states[i].controller == Idle && LastIs(states[i].issued, Start) ==>
              !states[i].stopBit && (states[i].startBit || !Paused(states[i].task))
  {
    RunInv(states, actions, i);
  }

  /** No stale command is acted on: a command that the task consumes is the last one issued,
      and no opposite command is half way through. */
  lemma NoStaleCommand(states: seq<State>, actions: seq<Action>, i: nat)
    requires Run(states, actions) && i < |actions|
    requires actions[i] in {ConsumeStart, ConsumeStop}
    ensures var command := if actions[i] == ConsumeStart then Start else Stop;
            && LastIs(states[i].issued, command)
            && (states[i].controller == Idle || states[i].controller == Setting(command))
  {
    RunInv(states, actions, i);
  }

  /** The task's own next step; an inference and the preparation may fail. */
  function TaskStep(s: State, ok: bool): (a: Action)
    requires s.task != Exited && !(Paused(s.task) && !s.startBit)
    ensures Enabled(s, a)
  {
    match s.task
    case AwaitFirstStart => ConsumeStart
    case AwaitRestart => ConsumeStart
    case Preparing => Prepare(ok)
    case Polling => if s.stopBit then ConsumeStop else PollTimeout
    case Inferring => Infer(ok)
    case Exited => assert false; Set
  }

  /** At most n steps of the task alone, stopping where it sleeps. */
  function TaskSteps(s: State, n: nat): State
    decreases n
  {
    if n == 0 || s.task == Exited || (Paused(s.task) && !s.startBit) then s
    else TaskSteps(Apply(s, TaskStep(s, true)), n - 1)
  }

  /** Two steps of its own bring a task that does not fail to the state last commanded, and
      with no further command it stays there: paused for good, or running. */
  lemma TaskSettles(states: seq<State>, actions: seq<Action>, i: nat, n: nat)
    requires Run(states, actions) && i < |states|
    requires states[i].controller == Idle && states[i].issued != [] && states[i].task != Exited
    requires n >= 2
    ensures LastIs(states[i].issued, Stop) ==> Paused(TaskSteps(states[i], n).task)
    ensures LastIs(states[i].issued, Start) ==> Active(TaskSteps(states[i], n).task)
  {
    RunInv(states, actions, i);
    TaskStaysSettled(states[i], n);
  }

  lemma {:induction false} TaskStaysSettled(s: State, n: nat)
    requires Inv(s) && s.controller == Idle && s.issued != [] && s.task != Exited
    ensures LastIs(s.issued, Stop) && (n >= 2 || Paused(s.task) || (n == 1 && s.task == Polling)) ==>
              Paused(TaskSteps(s, n).task)
    ensures LastIs(s.issued, Start) && (n >= 1 || Active(s.task)) ==> Active(TaskSteps(s, n).task)
    decreases n
  {
    if n > 0 && !(Paused(s.task) && !s.startBit) {
      StepKeepsInv(s, TaskStep(s, true));
      TaskStaysSettled(Apply(s, TaskStep(s, true)), n - 1);
    }
  }

  /** The commands the task has acted on, in a run: START and STOP alternate, beginning with
      START, so that it never acts on the same command twice in a row. */
  lemma {:induction false} HandledAlternate(states: seq<State>, actions: seq<Action>, i: nat)
    requires Run(states, actions) && i < |states|
    ensures forall j :: 0 <= j < |states[i].handled| ==>
              states[i].handled[j] == if j % 2 == 0 then Start else Stop
    ensures states[i].task != Exited ==> (Paused(states[i].task) <==> |states[i].handled| % 2 == 0)
  {
    if i > 0 {
      HandledAlternate(states, actions, i - 1);
    }
  }

  /** Three own steps at most after START a task that does not fail is in an inference. */
  lemma StartedTaskInfers(states: seq<State>, actions: seq<Action>, i: nat)
    requires Run(states, actions) && i < |states|
    requires states[i].controller == Idle && LastIs(states[i].issued, Start) && states[i].task != Exited
    ensures exists n :: 0 <= n <= 3 && TaskSteps(states[i], n).task == Inferring
  {
    RunInv(states, actions, i);
    var s := states[i];
    assert TaskSteps(s, 0) == s;
    if s.task == AwaitFirstStart {
      FromPreparing(Apply(s, ConsumeStart));
      assert TaskSteps(s, 3) == TaskSteps(Apply(s, ConsumeStart), 2);
    } else if s.task == AwaitRestart {
      FromPolling(Apply(s, ConsumeStart));
      assert TaskSteps(s, 2) == TaskSteps(Apply(s, ConsumeStart), 1);
    } else if s.task == Preparing {
      FromPreparing(s);
    } else if s.task == Polling {
      FromPolling(s);
    }
  }

  lemma FromPolling(s: State)
    requires s.task == Polling && !s.stopBit
    ensures TaskSteps(s, 1).task == Inferring
  {
    assert TaskSteps(s, 1) == TaskSteps(Apply(s, PollTimeout), 0);
  }

  lemma FromPreparing(s: State)
    requires s.task == Preparing && !s.stopBit
    ensures TaskSteps(s, 2).task == Inferring
  {
    FromPolling(Apply(s, Prepare(true)));
    assert TaskSteps(s, 2) == TaskSteps(Apply(s, Prepare(true)), 1);
  }

  /** An inference begins only from a poll that finds no STOP, and only behind a preparation
      that succeeded; the model is prepared once, after the first START. */
  lemma {:induction false} InferenceIsPrepared(states: seq<State>, actions: seq<Action>, i: nat)
    requires Run(states, actions) && i < |states|
    ensures states[i].task in {Polling, Inferring, AwaitRestart} ==>
              exists j :: 0 <= j < i && actions[j] == Prepare(true)
    ensures states[i].task == AwaitFirstStart <==> states[i].handled == []
    ensures states[i].task == Preparing ==> states[i].handled == [Start]
    ensures i > 0 && states[i].task == Inferring && states[i - 1].task != Inferring ==>
              states[i - 1].task == Polling && !states[i - 1].stopBit
    ensures i > 0 && states[i].task == AwaitRestart && states[i - 1].task != AwaitRestart ==>
              states[i - 1].task == Polling && states[i - 1].stopBit
  {
    if i > 0 {
      InferenceIsPrepared(states, actions, i - 1);
    }
  }

  /** A failure of the preparation or of an inference ends the task for good. */
  lemma {:induction false} FailureIsFinal(states: seq<State>, actions: seq<Action>, i: nat, j: nat)
    requires Run(states, actions) && i < |actions| && actions[i] in {Prepare(false), Infer(false)} && i < j < |states|
    ensures states[j].task == Exited && states[j].handled == states[i].handled
  {
    if j > i + 1 {
      FailureIsFinal(states, actions, i, j - 1);
    }
  }

  /** Only a failure ends the task. */
  lemma {:induction false} OnlyFailureEnds(states: seq<State>, actions: seq<Action>, i: nat)
    requires Run(states, actions) && i < |states| && states[i].task == Exited
    ensures exists j :: 0 <= j < i && actions[j] in {Prepare(false), Infer(false)}
  {
    if states[i - 1].task == Exited {
      OnlyFailureEnds(states, actions, i - 1);
    } else {
      assert actions[i - 1] in {Prepare(false), Infer(false)};
    }
  }

  /** Between its two calls a command has taken the opposite bit away and not yet touched its
      own; after the second its own is set. */
  lemma CommandInTwoSteps(states: seq<State>, actions: seq<Action>, i: nat)
    requires Run(states, actions) && i < |actions|
    ensures actions[i] == Clear(Start) ==> !states[i + 1].stopBit && states[i + 1].startBit == states[i].startBit
    ensures actions[i] == Clear(Stop) ==> !states[i + 1].startBit && states[i + 1].stopBit == states[i].stopBit
    ensures actions[i] == Set && states[i].controller == Setting(Start) ==>
              states[i + 1].startBit && !states[i + 1].stopBit && states[i + 1].issued == states[i].issued + [Start]
    ensures actions[i] == Set && states[i].controller == Setting(Stop) ==>
              states[i + 1].stopBit && !states[i + 1].startBit && states[i + 1].issued == states[i].issued + [Stop]
  {
    RunInv(states, actions, i);
  }
}
