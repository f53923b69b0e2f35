/** Interrupts that complete no block, and interrupts before the window is installed: exactly
    when an overflow can make the callback task count a block twice, and exactly when the
    callback can be called without a window. */
module CallbackCount {
  import opened Arithmetic
  import opened SlidingWindow
  import opened AudioProtocol
  import opened Sequences

  /** A longer run without a further overflow. */
  ghost predicate Extension(c: Config, states: seq<State>, actions: seq<Action>,
      states': seq<State>, actions': seq<Action>)
    requires c.Valid()
  {
    && |states| == |actions| + 1
    && Run(c, states', actions')
    && states <= states' && actions <= actions'
    && forall i :: |actions| <= i < |actions'| ==> actions'[i] != HardwareOverflow
  }

  lemma ChainExtensions(c: Config, states: seq<State>, actions: seq<Action>, states1: seq<State>, actions1: seq<Action>,
                        states2: seq<State>, actions2: seq<Action>)
    requires c.Valid()
    requires Extension(c, states, actions, states1, actions1)
    requires Extension(c, states1, actions1, states2, actions2)
    ensures Extension(c, states, actions, states2, actions2)
  {
    forall i | |actions| <= i < |actions2| ensures actions2[i] != HardwareOverflow {
      if i < |actions1| {
        assert actions2[i] == actions1[i];
      }
    }
  }

  /** One more step of an extension. */
  lemma Step(c: Config, states: seq<State>, actions: seq<Action>, states1: seq<State>, actions1: seq<Action>, a: Action)
    returns (states': seq<State>, actions': seq<Action>)
    requires c.Valid() && Extension(c, states, actions, states1, actions1)
    requires Enabled(c, Last(states1), a) && a != HardwareOverflow
    ensures Extension(c, states, actions, states', actions') && actions' == actions1 + [a]
    ensures Last(states') == Apply(c, Last(states1), a)
  {
    states', actions' := Extend(c, states1, actions1, a);
    ChainExtensions(c, states, actions, states1, actions1, states', actions');
  }

  // ----- What keeps the count right

  function Flag(b: bool): nat {
    if b then 1 else 0
  }

  /** The blocks completed and not counted cover those that the callback task may count next. */
  predicate CountSafe(s: State) {
    var ahead, notified := s.completed - s.signalled, Flag(s.notifications > 0);
    match s.callback
    case Asleep => notified <= ahead
    case Giving => notified <= ahead
    case Calling => 1 + notified <= ahead
    case Testing => (if s.event then 1 + notified else 1) <= ahead
    case Faulted => 0 <= ahead
  }

  lemma CountSafeStep(c: Config, s: State, a: Action)
    requires c.Valid() && |s.buffer| == c.g.BufferSize() && Enabled(c, s, a)
    requires CountSafe(s) && a != HardwareOverflow
    ensures CountSafe(Apply(c, s, a))
  {
  }

  /** The callback task has nothing left to count but the block it is about to count. */
  predicate CaughtUp(s: State) {
    && s.callback !in {Testing, Faulted}
    && s.notifications == 0
    && s.completed == s.signalled + Flag(s.callback == Calling)
  }

  lemma OverflowStep(c: Config, s: State)
    requires c.Valid() && |s.buffer| == c.g.BufferSize() && CountSafe(s)
    ensures CountSafe(Apply(c, s, HardwareOverflow)) <==> !CaughtUp(s)
  {
  }

  lemma {:induction false} CountSafeStays(c: Config, states: seq<State>, actions: seq<Action>, from: nat, i: nat)
    requires c.Valid() && Run(c, states, actions) && from <= i < |states| && CountSafe(states[from])
    requires forall j :: from <= j < |actions| ==> actions[j] != HardwareOverflow
    ensures CountSafe(states[i])
  {
    if i > from {
      CountSafeStays(c, states, actions, from, i - 1);
      CountSafeStep(c, states[i - 1], actions[i - 1]);
    }
  }

  // ----- Otherwise a block can be counted twice

  /** The hardware fills its block with the stream, up to some offset. */
  lemma {:induction false} FillBlock(c: Config, states: seq<State>, actions: seq<Action>, filled: nat)
    returns (states': seq<State>, actions': seq<Action>)
    requires c.Valid() && Run(c, states, actions) && filled <= c.g.blockSize
    ensures Extension(c, states, actions, states', actions')
    ensures Last(states').(buffer := Last(states).buffer) == Last(states)
    ensures |Last(states').buffer| == c.g.BufferSize()
    ensures forall o: nat :: o < filled ==> CellFilled(c, Last(states'), o)
    decreases filled
  {
    if filled == 0 {
      states', actions' := states, actions;
    } else {
      var states1, actions1 := FillBlock(c, states, actions, filled - 1);
      var s1, o := Last(states1), filled - 1;
      states', actions' := Step(c, states, actions, states1, actions1,
                                HardwareWrite(o, c.stream(s1.completed * c.g.blockSize + o)));
      forall o': nat | o' < filled ensures CellFilled(c, Last(states'), o') {
        if o' < o {
          assert CellFilled(c, s1, o');
          OtherCell(c, s1.completed, o', o);
        }
      }
    }
  }

  ghost predicate CellFilled(c: Config, s: State, o: nat)
    requires c.Valid() && |s.buffer| == c.g.BufferSize() && o < c.g.blockSize
  {
    s.buffer[WriteIndex(c, s.completed, o)] == c.stream(s.completed * c.g.blockSize + o)
  }

  lemma OtherCell(c: Config, completed: nat, o: nat, p: nat)
    requires c.Valid() && o < p < c.g.blockSize
    ensures WriteIndex(c, completed, o) != WriteIndex(c, completed, p)
  {
    CellInRing(completed, o, c.g.blockCount, c.g.blockSize);
    CellInRing(completed, p, c.g.blockCount, c.g.blockSize);
  }

  /** The hardware completes its block. */
  lemma CompleteBlock(c: Config, states: seq<State>, actions: seq<Action>)
    returns (states': seq<State>, actions': seq<Action>)
    requires c.Valid() && Run(c, states, actions)
    ensures Extension(c, states, actions, states', actions')
    ensures var s, s' := Last(states), Last(states');
            && s'.completed == s.completed + 1 && s'.event && s'.notifications > 0
            && s'.callback == s.callback && s'.signalled == s.signalled
            && s'.installed == s.installed
  {
    var states1, actions1 := FillBlock(c, states, actions, c.g.blockSize);
    forall o: nat | o < c.g.blockSize
      ensures Last(states1).buffer[WriteIndex(c, Last(states1).completed, o)]
              == c.stream(Last(states1).completed * c.g.blockSize + o)
    {
      assert CellFilled(c, Last(states1), o);
    }
    states', actions' := Step(c, states, actions, states1, actions1, HardwareComplete);
  }

  /** The callback and the window are installed, as far as they are not yet. */
  lemma InstallWindow(c: Config, states: seq<State>, actions: seq<Action>)
    returns (states': seq<State>, actions': seq<Action>)
    requires c.Valid() && Run(c, states, actions)
    ensures Extension(c, states, actions, states', actions')
    ensures Last(states') == Last(states).(installed := CallbackAndWindow)
  {
    states', actions' := states, actions;
    if Last(states').installed == Nothing {
      states', actions' := Step(c, states, actions, states', actions', Install);
    }
    if Last(states').installed == CallbackOnly {
      states', actions' := Step(c, states, actions, states', actions', Install);
    }
  }

  /** The callback task finishes a call. */
  lemma FinishCall(c: Config, states: seq<State>, actions: seq<Action>)
    returns (states': seq<State>, actions': seq<Action>)
    requires c.Valid() && Run(c, states, actions) && Last(states).installed == CallbackAndWindow
    requires Last(states).callback in {Asleep, Calling, Giving}
    ensures Extension(c, states, actions, states', actions')
    ensures var s, s' := Last(states), Last(states');
            && s'.callback == Asleep && s'.signalled == s.signalled + Flag(s.callback == Calling)
            && s'.completed == s.completed && s'.event == s.event && s'.notifications == s.notifications
            && s'.installed == s.installed
  {
    states', actions' := states, actions;
    if Last(states').callback == Calling {
      states', actions' := Step(c, states, actions, states', actions', UpdateBlock);
    }
    if Last(states').callback == Giving {
      states', actions' := Step(c, states, actions, states', actions', GiveSemaphore);
    }
  }

  /** The callback task takes its notification while the last event is a completed block, and
      counts a block. */
  lemma CountOne(c: Config, states: seq<State>, actions: seq<Action>)
    returns (states': seq<State>, actions': seq<Action>)
    requires c.Valid() && Run(c, states, actions) && Last(states).installed == CallbackAndWindow
    requires (Last(states).callback == Asleep && Last(states).notifications > 0) || Last(states).callback == Testing
    requires Last(states).event
    ensures Extension(c, states, actions, states', actions')
    ensures var s, s' := Last(states), Last(states');
            && s'.callback == Asleep && s'.signalled == s.signalled + 1 && s'.completed == s.completed
            && s'.event && s'.installed == s.installed
            && s'.notifications == if s.callback == Asleep then 0 else s.notifications
  {
    states', actions' := states, actions;
    if Last(states').callback == Asleep {
      states', actions' := Step(c, states, actions, states', actions', TakeNotification);
    }
    states', actions' := Step(c, states, actions, states', actions', TestEvent);
    var states1, actions1 := states', actions';
    states', actions' := FinishCall(c, states1, actions1);
    ChainExtensions(c, states, actions, states1, actions1, states', actions');
  }

  /** From a state just after an overflow that found the callback task caught up: the task
      takes the overflow's notification, the hardware completes a block before the task tests
      the event, and both notifications count that block. */
  lemma CountTwice(c: Config, states: seq<State>, actions: seq<Action>)
    returns (states': seq<State>, actions': seq<Action>)
    requires c.Valid() && Run(c, states, actions)
    requires Last(states).installed == CallbackAndWindow
    requires Last(states).callback == Asleep && Last(states).notifications > 0
    requires Last(states).completed == Last(states).signalled
    ensures Extension(c, states, actions, states', actions')
    ensures Last(states').signalled > Last(states').completed
  {
    var states1, actions1 := Step(c, states, actions, states, actions, TakeNotification);
    states', actions' := CompleteBlock(c, states1, actions1);
    ChainExtensions(c, states, actions, states1, actions1, states', actions');
    states1, actions1 := states', actions';
    states', actions' := CountOne(c, states1, actions1);
    ChainExtensions(c, states, actions, states1, actions1, states', actions');
    states1, actions1 := states', actions';
    states', actions' := CountOne(c, states1, actions1);
    ChainExtensions(c, states, actions, states1, actions1, states', actions');
  }

  lemma CaughtUpCanCountTwice(c: Config, states: seq<State>, actions: seq<Action>)
    returns (states': seq<State>, actions': seq<Action>)
    requires c.Valid() && Run(c, states, actions) && CaughtUp(Last(states))
    ensures Extension(c, states + [Apply(c, Last(states), HardwareOverflow)], actions + [HardwareOverflow],
        states', actions')
    ensures Last(states').signalled > Last(states').completed
  {
    var states0, actions0 := Extend(c, states, actions, HardwareOverflow);
    var states1, actions1 := InstallWindow(c, states0, actions0);
    states', actions' := FinishCall(c, states1, actions1);
    ChainExtensions(c, states0, actions0, states1, actions1, states', actions');
    states1, actions1 := states', actions';
    states', actions' := CountTwice(c, states1, actions1);
    ChainExtensions(c, states0, actions0, states1, actions1, states', actions');
  }

  /** Whatever follows an overflow, up to the next one, no block is counted that is not
      complete. */
  ghost predicate OverflowHarmless(c: Config, states: seq<State>, actions: seq<Action>)
    requires c.Valid() && states != [] && |Last(states).buffer| == c.g.BufferSize()
  {
    forall states', actions' ::
      Extension(c, states + [Apply(c, Last(states), HardwareOverflow)], actions + [HardwareOverflow],
          states', actions') ==>
        Last(states').signalled <= Last(states').completed
  }

  /** After a run without overflows, an overflow can make the callback task count a block
      twice exactly when it finds the task caught up: no notification pending, no event about
      to be tested, and every block counted but the one it may be about to count. */
  lemma OverflowCountsTwice(c: Config, states: seq<State>, actions: seq<Action>)
    requires c.Valid() && Run(c, states, actions) && HardwareOverflow !in actions
    ensures !OverflowHarmless(c, states, actions) <==> CaughtUp(Last(states))
  {
    var s := Last(states);
    assert CountSafe(states[0]);
    CountSafeStays(c, states, actions, 0, |actions|);
    OverflowStep(c, s);
    if CaughtUp(s) {
      var states', actions' := CaughtUpCanCountTwice(c, states, actions);
    } else {
      forall states', actions' | Extension(c, states + [Apply(c, s, HardwareOverflow)], actions + [HardwareOverflow],
                                           states', actions')
        ensures Last(states').signalled <= Last(states').completed
      {
        assert states'[|actions| + 1] == Apply(c, s, HardwareOverflow);
        CountSafeStays(c, states', actions', |actions| + 1, |actions'|);
      }
    }
  }

  /** An overflow between a completed block and the test of its event loses that block: after
      the overflow's own notification the task sleeps again, with nothing pending and the
      block not counted. */
  lemma OverflowLosesBlock(c: Config, states: seq<State>, actions: seq<Action>)
    returns (states': seq<State>, actions': seq<Action>)
    requires c.Valid() && Run(c, states, actions) && HardwareOverflow !in actions
    requires Last(states).callback == Testing && Last(states).event
    ensures Run(c, states', actions') && states <= states' && actions <= actions'
    ensures actions'[|actions|..] == [HardwareOverflow, TestEvent, TakeNotification, TestEvent]
    ensures var s' := Last(states');
            && s'.callback == Asleep && s'.notifications == 0
            && s'.signalled == Last(states).signalled < s'.completed
  {
    assert CountSafe(states[0]);
    CountSafeStays(c, states, actions, 0, |actions|);
    states', actions' := Extend(c, states, actions, HardwareOverflow);
    states', actions' := Extend(c, states', actions', TestEvent);
    states', actions' := Extend(c, states', actions', TakeNotification);
    states', actions' := Extend(c, states', actions', TestEvent);
  }

  // ----- Calls before the window is installed

  /** Before the callback is installed the task only wakes up and goes back to sleep: it makes
      no call, and no block is counted. */
  lemma {:induction false} NoCallBeforeCallback(c: Config, states: seq<State>, actions: seq<Action>, i: nat)
    requires c.Valid() && Run(c, states, actions) && i < |states|
    ensures states[i].installed == Nothing ==> states[i].callback in {Asleep, Testing} && states[i].signalled == 0
  {
    if i > 0 {
      NoCallBeforeCallback(c, states, actions, i - 1);
      NoCallStep(c, states[i - 1], actions[i - 1]);
    }
  }

  lemma NoCallStep(c: Config, s: State, a: Action)
    requires c.Valid() && |s.buffer| == c.g.BufferSize() && Enabled(c, s, a)
    requires s.installed == Nothing ==> s.callback in {Asleep, Testing} && s.signalled == 0
    ensures var s' := Apply(c, s, a);
            s'.installed == Nothing ==> s'.callback in {Asleep, Testing} && s'.signalled == 0
  {
  }

  /** A block has been completed whose event the callback task is still going to act on. */
  predicate CallPending(s: State) {
    || s.callback == Calling
    || (s.event && (s.callback == Testing || s.notifications > 0))
  }

  /** No block is completed from some step on. */
  ghost predicate NoCompletion(actions: seq<Action>, from: nat) {
    forall i :: from <= i < |actions| ==> actions[i] != HardwareComplete
  }

  predicate CallSafe(s: State) {
    s.callback != Faulted && (s.installed == CallbackAndWindow || !CallPending(s))
  }

  lemma CallSafeStep(c: Config, s: State, a: Action)
    requires c.Valid() && |s.buffer| == c.g.BufferSize() && Enabled(c, s, a)
    requires CallSafe(s) && a != HardwareComplete
    ensures CallSafe(Apply(c, s, a))
  {
  }

  lemma {:induction false} CallStaysSafe(c: Config, states: seq<State>, actions: seq<Action>, from: nat, i: nat)
    requires c.Valid() && Run(c, states, actions) && from <= i < |states| && CallSafe(states[from])
    requires NoCompletion(actions, from)
    ensures CallSafe(states[i])
  {
    if i > from {
      CallStaysSafe(c, states, actions, from, i - 1);
      CallSafeStep(c, states[i - 1], actions[i - 1]);
    }
  }

  /** While the window is not installed, the callback task has never got past a call. */
  lemma {:induction false} NoCallYet(c: Config, states: seq<State>, actions: seq<Action>, i: nat)
    requires c.Valid() && Run(c, states, actions) && i < |states|
    ensures states[i].installed != CallbackAndWindow ==> states[i].callback != Giving
  {
    if i > 0 {
      NoCallYet(c, states, actions, i - 1);
    }
  }

  /** A callback installed without its window is called. */
  lemma CallWithout(c: Config, states: seq<State>, actions: seq<Action>)
    returns (states': seq<State>, actions': seq<Action>)
    requires c.Valid() && Run(c, states, actions)
    requires Last(states).installed == CallbackOnly && Last(states).callback != Faulted
    requires CallPending(Last(states))
    ensures Extension(c, states, actions, states', actions') && NoCompletion(actions', |actions|)
    ensures Last(states').callback == Faulted
  {
    NoCallYet(c, states, actions, |actions|);
    states', actions' := states, actions;
    if Last(states').callback == Asleep {
      states', actions' := Step(c, states, actions, states', actions', TakeNotification);
    }
    if Last(states').callback == Testing {
      states', actions' := Step(c, states, actions, states', actions', TestEvent);
    }
    states', actions' := Step(c, states, actions, states', actions', UpdateBlock);
  }

  /** In no continuation is the callback called without its window, until the hardware
      completes another block. */
  ghost predicate CallbackSafe(c: Config, states: seq<State>, actions: seq<Action>)
    requires c.Valid()
  {
    forall states', actions' ::
      Extension(c, states, actions, states', actions') && NoCompletion(actions', |actions|) ==>
        Last(states').callback != Faulted
  }

  /** Between the two assignments that install the window, a callback can be called without
      one exactly when a completed block's event is still to be acted on; once both are done
      it never can. */
  lemma CallbackSafeExactlyWhen(c: Config, states: seq<State>, actions: seq<Action>)
    requires c.Valid() && Run(c, states, actions)
    requires Last(states).installed != Nothing && Last(states).callback != Faulted
    ensures CallbackSafe(c, states, actions) <==>
              Last(states).installed == CallbackAndWindow || !CallPending(Last(states))
  {
    if CallSafe(Last(states)) {
      forall states', actions' | Extension(c, states, actions, states', actions') && NoCompletion(actions', |actions|)
        ensures Last(states').callback != Faulted
      {
        assert states'[|actions|] == Last(states);
        CallStaysSafe(c, states', actions', |actions|, |actions'|);
      }
    } else {
      var states', actions' := CallWithout(c, states, actions);
    }
  }
}
