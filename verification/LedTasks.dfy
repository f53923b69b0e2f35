/** The two tasks that drive the LEDs, as steps that interleave freely: the inference task,
    which calls the change handler, and the blinking task. Neither takes a lock, so that an
    LED call of one can begin in the middle of a call of the other. */
module LedTasks {
  import opened Leds
  import opened MlReporting
  import opened Sequences

  datatype Task = Handler | Blinker

  /** Where an LED call is: it has read the port and computed its target; then it goes through
      the pins, each of which it first compares with the shadow and then, if it differs,
      writes; after the last pin it stores the shadow. */
  datatype Call = Idle | Comparing(target: Word, position: nat) | Writing(target: Word, position: nat)

  /** The port and the shadow after the initialisation, the keyword last reported, the calls
      in progress, and what has happened so far. */
  datatype State = State(port: Word, shadow: Word, reported: Keyword,
      handler: Call, blinker: Call, events: seq<Event>) {
    function CallOf(task: Task): Call {
      if task == Handler then handler else blinker
    }

    function WithCall(task: Task, call: Call): State {
      if task == Handler then this.(handler := call) else this.(blinker := call)
    }

    predicate Quiet() {
      handler.Idle? && blinker.Idle?
    }
  }

  datatype Action = Report(keyword: Keyword) | Toggle | Step(task: Task)

  function Other(task: Task): Task {
    if task == Handler then Blinker else Handler
  }

  const START: State := State({}, {}, Silence, Idle, Idle, [])

  /** A reported keyword that has an LED. */
  predicate HasLed(keyword: Keyword) {
    keyword != Silence && keyword != Unknown
  }

  /** Whether an action begins an LED call: for a report, only a change that has an LED does. */
  predicate Begins(s: State, a: Action) {
    match a
    case Report(keyword) => keyword != s.reported && HasLed(keyword)
    case Toggle => true
    case Step(_) => false
  }

  function Caller(a: Action): Task {
    if a.Report? then Handler else Blinker
  }

  /** What a call makes of the LEDs. */
  function Effect(port: Word, a: Action): Word {
    match a
    case Report(keyword) => LedsAfter(port, keyword)
    case Toggle => Xor(port, LED_ALIVE)
    case Step(_) => port
  }

  /** A call that has read the port; one beyond the last LED is refused. */
  function Begin(target: Word): Call {
    if WithinMask(target) then Comparing(target, 0) else Idle
  }

  predicate Enabled(s: State, a: Action) {
    match a
    case Report(_) => s.handler.Idle?
    case Toggle => s.blinker.Idle?
    case Step(task) => !s.CallOf(task).Idle?
  }

  /** One step of the call of a task. */
  function CallStep(s: State, task: Task): State
    requires !s.CallOf(task).Idle?
  {
    match s.CallOf(task)
    case Comparing(target, position) =>
      if position >= LED_COUNT then s.(shadow := target).WithCall(task, Idle)
      else if position in Xor(target, s.shadow) then s.WithCall(task, Writing(target, position))
      else s.WithCall(task, Comparing(target, position + 1))
    case Writing(target, position) =>
      s.(port := if position in target then s.port + {position} else s.port - {position})
       .WithCall(task, Comparing(target, position + 1))
  }

  function Apply(s: State, a: Action): State
    requires Enabled(s, a)
  {
    var s' := if Begins(s, a) then s.WithCall(Caller(a), Begin(Effect(s.port, a))) else s;
    match a
    case Report(keyword) => s'.(reported := keyword, events := s.events + [Result(keyword)])
    case Toggle => s'.(events := s.events + [Event.Blink])
    case Step(task) => CallStep(s, task)
  }

  predicate Run(states: seq<State>, actions: seq<Action>) {
    && |states| == |actions| + 1
    && states[0] == START
    && forall i :: 0 <= i < |actions| ==>
         Enabled(states[i], actions[i]) && states[i + 1] == Apply(states[i], actions[i])
  }

  /** What the LEDs should show: every result handled and every blink done, one by one. */
  function Expected(s: State): Word {
    LedsAlways({}, s.events)
  }

  /** A step that begins no LED call, or begins it while the other task is in none, or with
      the very target of the call in progress. */
  predicate Clear(s: State, a: Action) {
    var other := s.CallOf(Other(Caller(a)));
    Begins(s, a) ==> other.Idle? || other.target == Effect(s.port, a)
  }

  // ----- What clear steps keep

  predicate SameBit(a: Word, b: Word, bit: nat) {
    bit in a <==> bit in b
  }

  /** The LEDs of the handler are all but the blinking one. */
  predicate Own(task: Task, bit: nat) {
    (task == Blinker) == (bit in LED_ALIVE)
  }

  /** A call in progress is heading for the expected word and has done the pins below. */
  ghost predicate CallOk(s: State, task: Task) {
    match s.CallOf(task)
    case Idle => true
    case Comparing(target, position) =>
      target == Expected(s) && position <= LED_COUNT
          && (forall bit | 0 <= bit < position :: SameBit(s.port, target, bit))
    case Writing(target, position) =>
      target == Expected(s) && position < LED_COUNT
          && (forall bit | 0 <= bit < position :: SameBit(s.port, target, bit))
  }

  /** Where a call of this task alone is in progress, only its own LEDs can be unfinished. */
  ghost predicate OwnOnly(s: State, task: Task) {
    !s.CallOf(task).Idle? ==>
      forall bit: nat | !Own(task, bit) ::
        SameBit(s.port, Expected(s), bit) && (s.CallOf(Other(task)).Idle? ==> SameBit(s.shadow, Expected(s), bit))
  }

  ghost predicate Inv(s: State) {
    var e := Expected(s);
    && WithinMask(s.port) && WithinMask(e)
    && MlReporting.Settled(e, s.reported)
    && CallOk(s, Handler) && CallOk(s, Blinker)
    && OwnOnly(s, Handler) && OwnOnly(s, Blinker)
    && (forall bit: nat | SameBit(s.shadow, e, bit) :: SameBit(s.port, e, bit))
    && (s.Quiet() ==> s.shadow == e)
  }

  lemma QuietIsExpected(s: State)
    requires Inv(s) && s.Quiet()
    ensures s.port == s.shadow == Expected(s)
  {
    forall bit: nat ensures bit in s.port <==> bit in Expected(s) {
      assert SameBit(s.shadow, Expected(s), bit);
    }
  }

  lemma ExpectedAfter(s: State, a: Action)
    requires Enabled(s, a)
    ensures Expected(Apply(s, a)) == Effect(Expected(s), a)
  {
    if !a.Step? {
      var event := if a.Report? then Result(a.keyword) else Event.Blink;
      assert (s.events + [event])[..|s.events|] == s.events;
    }
  }

  lemma InitialInv()
    ensures Inv(START)
  {
  }

  /** A call keeps within the LEDs and changes own LEDs only. */
  lemma EffectFacts(port: Word, a: Action)
    requires WithinMask(port)
    ensures WithinMask(Effect(port, a))
    ensures forall bit: nat :: !a.Step? && !Own(Caller(a), bit) ==> SameBit(Effect(port, a), port, bit)
    ensures a.Report? ==> Effect(Effect(port, a), a) == Effect(port, a)
  {
  }

  lemma BeginKeepsInv(s: State, a: Action)
    requires Inv(s) && Enabled(s, a) && Clear(s, a) && Begins(s, a)
    ensures Inv(Apply(s, a))
  {
    var s', e := Apply(s, a), Expected(s);
    ExpectedAfter(s, a);
    EffectFacts(e, a);
    EffectFacts(s.port, a);
    SettledAfter(e, s.reported);
    if s.CallOf(Other(Caller(a))).Idle? {
      QuietIsExpected(s);
    } else {
      if a == Toggle {
        ToggleNeverMeets(s);
      }
      assert Expected(s') == e;
    }
  }

  /** The handler leaves the blinking LED alone, so that a toggle heads elsewhere. */
  lemma ToggleNeverMeets(s: State)
    requires Inv(s) && !s.handler.Idle?
    ensures s.handler.target != Xor(s.port, LED_ALIVE)
  {
    assert SameBit(s.port, Expected(s), 5);
    assert !SameBit(s.port, Xor(s.port, LED_ALIVE), 5);
  }

  lemma ReportKeepsInv(s: State, keyword: Keyword)
    requires Inv(s) && Enabled(s, Report(keyword)) && !Begins(s, Report(keyword))
    ensures Inv(Apply(s, Report(keyword)))
  {
    ExpectedAfter(s, Report(keyword));
    assert Expected(Apply(s, Report(keyword))) == Expected(s);
  }

  lemma CallStepKeepsInv(s: State, task: Task)
    requires Inv(s) && !s.CallOf(task).Idle?
    ensures Inv(CallStep(s, task))
  {
    match s.CallOf(task)
    case Comparing(target, position) =>
      if position >= LED_COUNT {
        StoreKeepsInv(s, task);
      } else {
        CompareKeepsInv(s, task);
      }
    case Writing(target, position) => WriteKeepsInv(s, task);
  }

  lemma CompareKeepsInv(s: State, task: Task)
    requires Inv(s) && s.CallOf(task).Comparing? && s.CallOf(task).position < LED_COUNT
    ensures Inv(CallStep(s, task))
  {
    var position := s.CallOf(task).position;
    if position !in Xor(Expected(s), s.shadow) {
      assert SameBit(s.shadow, Expected(s), position);
    }
  }

  lemma WriteKeepsInv(s: State, task: Task)
    requires Inv(s) && s.CallOf(task).Writing?
    ensures Inv(CallStep(s, task))
  {
    var s', e, position := CallStep(s, task), Expected(s), s.CallOf(task).position;
    assert Expected(s') == e;
    assert forall bit: nat :: bit in s'.port <==> if bit == position then bit in e else bit in s.port;
    forall bit: nat | SameBit(s.port, e, bit) ensures SameBit(s'.port, e, bit) {
    }
    assert SameBit(s'.port, e, position);
    forall bit: nat | 0 <= bit < LED_COUNT && SameBit(s'.shadow, e, bit) ensures SameBit(s'.port, e, bit) {
      assert SameBit(s.shadow, e, bit);
    }
  }

  lemma StoreKeepsInv(s: State, task: Task)
    requires Inv(s) && s.CallOf(task).Comparing? && s.CallOf(task).position >= LED_COUNT
    ensures Inv(CallStep(s, task))
  {
    var s', e := CallStep(s, task), Expected(s);
    forall bit: nat ensures bit in s.port <==> bit in e {
      if bit < LED_COUNT {
        assert SameBit(s.port, e, bit);
      }
    }
    assert s.port == e && s'.shadow == e;
  }

  lemma {:induction false} RunInv(states: seq<State>, actions: seq<Action>, i: nat)
    requires Run(states, actions) && i < |states|
    requires forall j :: 0 <= j < i ==> Clear(states[j], actions[j])
    ensures Inv(states[i])
  {
    if i == 0 {
      InitialInv();
    } else {
      RunInv(states, actions, i - 1);
      var s, a := states[i - 1], actions[i - 1];
      if Begins(s, a) {
        BeginKeepsInv(s, a);
      } else if a.Report? {
        ReportKeepsInv(s, a.keyword);
      } else {
        CallStepKeepsInv(s, a.task);
      }
    }
  }

  // ----- Main results

  /** When every LED call begins clear of a call of the other task, the LEDs show what they
      should whenever no call is in progress, and the shadow agrees with them. */
  lemma ClearCallsShowEverything(states: seq<State>, actions: seq<Action>, i: nat)
    requires Run(states, actions) && i < |states|
    requires forall j :: 0 <= j < |actions| ==> Clear(states[j], actions[j])
    requires states[i].Quiet()
    ensures states[i].port == states[i].shadow == LedsAlways({}, states[i].events)
  {
    RunInv(states, actions, i);
    QuietIsExpected(states[i]);
  }

  /** A longer run whose further steps are clear. */
  ghost predicate Extends(states: seq<State>, actions: seq<Action>, states': seq<State>, actions': seq<Action>) {
    && |states| == |actions| + 1
    && Run(states', actions')
    && states <= states' && actions <= actions'
    && forall i :: |actions| <= i < |actions'| ==> Clear(states'[i], actions'[i])
  }

  lemma Extend(states: seq<State>, actions: seq<Action>, a: Action)
    returns (states': seq<State>, actions': seq<Action>)
    requires Run(states, actions) && Enabled(Last(states), a)
    ensures Run(states', actions')
    ensures states' == states + [Apply(Last(states), a)] && actions' == actions + [a]
    ensures Clear(Last(states), a) ==> Extends(states, actions, states', actions')
  {
    states', actions' := states + [Apply(Last(states), a)], actions + [a];
  }

  lemma Chain(states: seq<State>, actions: seq<Action>, states1: seq<State>, actions1: seq<Action>,
              states2: seq<State>, actions2: seq<Action>)
    requires Extends(states, actions, states1, actions1) && Extends(states1, actions1, states2, actions2)
    ensures Extends(states, actions, states2, actions2)
  {
    forall i | |actions| <= i < |actions2| ensures Clear(states2[i], actions2[i]) {
      if i < |actions1| {
        assert actions2[i] == actions1[i] && states2[i] == states1[i];
      }
    }
  }

  /** A call that has not left the loop over the pins. */
  predicate InLoop(call: Call) {
    match call
    case Idle => false
    case Comparing(_, position) => position <= LED_COUNT
    case Writing(_, position) => position < LED_COUNT
  }

  /** Whether the call will still write a pin, when nothing else happens to the shadow. */
  predicate Writes(call: Call, shadow: Word, bit: nat)
    requires !call.Idle?
  {
    || (call.Writing? && bit == call.position)
    || (call.position <= bit < LED_COUNT && !SameBit(call.target, shadow, bit))
  }

  /** The state after the call of one task has gone to its end alone. */
  ghost predicate Finished(s: State, task: Task, s': State)
    requires !s.CallOf(task).Idle?
  {
    && s'.CallOf(task).Idle? && s'.CallOf(Other(task)) == s.CallOf(Other(task))
    && s'.shadow == s.CallOf(task).target && s'.reported == s.reported && s'.events == s.events
    && forall bit: nat :: bit in s'.port <==>
         if Writes(s.CallOf(task), s.shadow, bit) then bit in s.CallOf(task).target else bit in s.port
  }

  lemma {:induction false} Finish(states: seq<State>, actions: seq<Action>, task: Task)
    returns (states': seq<State>, actions': seq<Action>)
    requires Run(states, actions) && InLoop(Last(states).CallOf(task))
    ensures Extends(states, actions, states', actions')
    ensures Finished(Last(states), task, Last(states'))
    decreases LED_COUNT - Last(states).CallOf(task).position, Last(states).CallOf(task).Comparing?
  {
    states', actions' := Extend(states, actions, Step(task));
    if InLoop(Last(states').CallOf(task)) {
      var states1, actions1 := states', actions';
      states', actions' := Finish(states1, actions1, task);
      Chain(states, actions, states1, actions1, states', actions');
    }
  }

  /** Both calls in progress go to their ends, one after the other. */
  lemma FinishBoth(states: seq<State>, actions: seq<Action>, first: Task)
    returns (states': seq<State>, actions': seq<Action>, middle: State)
    requires Run(states, actions)
    requires InLoop(Last(states).handler) && InLoop(Last(states).blinker)
    ensures Extends(states, actions, states', actions')
    ensures Finished(Last(states), first, middle)
    ensures !middle.CallOf(Other(first)).Idle? && Finished(middle, Other(first), Last(states'))
  {
    var states1, actions1 := Finish(states, actions, first);
    middle := Last(states1);
    states', actions' := Finish(states1, actions1, Other(first));
    Chain(states, actions, states1, actions1, states', actions');
  }

  // ----- What an overlapping call can do

  /** The LED of a call, and the call that does the opposite to it. */
  function LedOf(a: Action): nat {
    match a
    case Report(Yes) => 0
    case Report(No) => 0
    case Report(Go) => 1
    case Report(StopWord) => 1
    case Report(Up) => 2
    case Report(Down) => 2
    case Report(Left) => 3
    case Report(Right) => 3
    case Report(On) => 4
    case Report(Off) => 4
    case _ => 5
  }

  function Opposite(a: Action): Action {
    match a
    case Report(Yes) => Report(No)
    case Report(No) => Report(Yes)
    case Report(Go) => Report(StopWord)
    case Report(StopWord) => Report(Go)
    case Report(Up) => Report(Down)
    case Report(Down) => Report(Up)
    case Report(Left) => Report(Right)
    case Report(Right) => Report(Left)
    case Report(On) => Report(Off)
    case Report(Off) => Report(On)
    case _ => a
  }

  lemma LedFacts(s: State, a: Action, word: Word, other: Word)
    requires Begins(s, a)
    ensures LedOf(a) < LED_COUNT && Own(Caller(a), LedOf(a))
    ensures forall bit: nat :: bit != LedOf(a) ==> SameBit(Effect(word, a), word, bit)
    ensures SameBit(word, other, LedOf(a)) ==> SameBit(Effect(word, a), Effect(other, a), LedOf(a))
    ensures !SameBit(Effect(word, a), word, LedOf(a)) ==>
              SameBit(Effect(Effect(word, a), Opposite(a)), word, LedOf(a))
    ensures Caller(Opposite(a)) == Caller(a) && LedOf(Opposite(a)) == LedOf(a)
    ensures a.Report? ==> Opposite(a).Report? && HasLed(Opposite(a).keyword) && Opposite(a).keyword != a.keyword
  {
  }

  lemma FinishedWithinMask(s: State, task: Task, s': State)
    requires InLoop(s.CallOf(task)) && Finished(s, task, s')
    requires WithinMask(s.port) && WithinMask(s.CallOf(task).target)
    ensures WithinMask(s'.port)
  {
  }

  /** An LED that the shadow has the other way round is not changed by the next call for it. */
  lemma StaleShadow(states: seq<State>, actions: seq<Action>, a: Action)
    returns (states': seq<State>, actions': seq<Action>)
    requires Run(states, actions) && Last(states).Quiet() && WithinMask(Last(states).port)
    requires Begins(Last(states), a) && LedOf(a) < LED_COUNT
    requires SameBit(Expected(Last(states)), Last(states).port, LedOf(a))
    requires !SameBit(Effect(Last(states).port, a), Last(states).port, LedOf(a))
    requires SameBit(Effect(Last(states).port, a), Last(states).shadow, LedOf(a))
    ensures Extends(states, actions, states', actions')
    ensures Last(states').Quiet() && !SameBit(Last(states').port, Expected(Last(states')), LedOf(a))
  {
    var s := Last(states);
    EffectFacts(s.port, a);
    ExpectedAfter(s, a);
    LedFacts(s, a, s.port, Expected(s));
    var states1, actions1 := Extend(states, actions, a);
    states', actions' := Finish(states1, actions1, Caller(a));
    Chain(states, actions, states1, actions1, states', actions');
  }

  /** After both calls have gone to their ends. */
  lemma AfterBoth(s: State, first: Task, middle: State, s': State)
    requires InLoop(s.handler) && InLoop(s.blinker) && WithinMask(s.port)
    requires WithinMask(s.handler.target) && WithinMask(s.blinker.target)
    requires Finished(s, first, middle) && Finished(middle, Other(first), s')
    ensures s'.Quiet() && WithinMask(s'.port) && s'.shadow == s.CallOf(Other(first)).target
    ensures s'.reported == s.reported && s'.events == s.events
  {
    FinishedWithinMask(s, first, middle);
    FinishedWithinMask(middle, Other(first), s');
  }

  /** An LED as it should be, but with the opposite in the shadow: the next call for it is one
      that `StaleShadow` speaks of. */
  lemma OppositeIsStale(s: State, a: Action, e: Word, s': State)
    requires Begins(s, a) && s'.Quiet() && s'.reported == (if a.Report? then a.keyword else s.reported)
    requires !SameBit(Effect(e, a), e, LedOf(a))
    requires SameBit(s'.port, Effect(e, a), LedOf(a)) && SameBit(s'.shadow, e, LedOf(a))
    ensures Begins(s', Opposite(a)) && LedOf(Opposite(a)) == LedOf(a) && Caller(Opposite(a)) == Caller(a)
    ensures !SameBit(Effect(s'.port, Opposite(a)), s'.port, LedOf(a))
    ensures SameBit(Effect(s'.port, Opposite(a)), s'.shadow, LedOf(a))
  {
    LedFacts(s, a, e, s'.port);
    LedFacts(s', Opposite(a), Effect(e, a), s'.port);
  }

  /** A call that has an LED to change begins during a call of the other task: the other's
      later comparisons undo the change, or else its shadow forgets it, and the next call for
      the LED has no effect. */
  lemma ChangeOverlaps(states: seq<State>, actions: seq<Action>, a: Action)
    returns (states': seq<State>, actions': seq<Action>)
    requires Run(states, actions) && Inv(Last(states)) && Enabled(Last(states), a)
    requires Begins(Last(states), a) && !Last(states).CallOf(Other(Caller(a))).Idle?
    requires !SameBit(Effect(Last(states).port, a), Last(states).port, LedOf(a))
    ensures Extends(states + [Apply(Last(states), a)], actions + [a], states', actions')
    ensures Last(states').Quiet() && !SameBit(Last(states').port, Expected(Last(states')), LedOf(a))
  {
    var s, e, led := Last(states), Expected(Last(states)), LedOf(a);
    EffectFacts(s.port, a);
    ExpectedAfter(s, a);
    OwnLedUntouched(s, a);
    var states1, actions1 := Extend(states, actions, a);
    var middle;
    states', actions', middle := FinishBoth(states1, actions1, Caller(a));
    var s3 := Last(states');
    AfterBoth(Last(states1), Caller(a), middle, s3);
    if SameBit(s3.port, Expected(s3), led) {
      OppositeIsStale(s, a, e, s3);
      var states2, actions2 := states', actions';
      states', actions' := StaleShadow(states2, actions2, Opposite(a));
      Chain(states1, actions1, states2, actions2, states', actions');
    }
  }

  /** The LED of a beginning call is as expected in port and shadow, and the call changes it. */
  lemma OwnLedUntouched(s: State, a: Action)
    requires Inv(s) && Enabled(s, a) && Begins(s, a) && !s.CallOf(Other(Caller(a))).Idle?
    requires !SameBit(Effect(s.port, a), s.port, LedOf(a))
    ensures SameBit(s.port, Expected(s), LedOf(a)) && SameBit(s.shadow, Expected(s), LedOf(a))
    ensures !SameBit(Effect(Expected(s), a), Expected(s), LedOf(a))
  {
    LedFacts(s, a, s.port, Expected(s));
  }

  /** A call of the handler that has nothing to change begins during a call of the blinking
      task and heads for the old state of the blinking LED: it sets that LED back. */
  lemma RepeatOverlaps(states: seq<State>, actions: seq<Action>, a: Action)
    returns (states': seq<State>, actions': seq<Action>)
    requires Run(states, actions) && Inv(Last(states)) && Enabled(Last(states), a)
    requires a.Report? && Begins(Last(states), a) && !Clear(Last(states), a)
    requires SameBit(Effect(Last(states).port, a), Last(states).port, LedOf(a))
    ensures Extends(states + [Apply(Last(states), a)], actions + [a], states', actions')
    ensures Last(states').Quiet() && !SameBit(Last(states').port, Expected(Last(states')), 5)
  {
    var s, e := Last(states), Expected(Last(states));
    LedFacts(s, a, s.port, e);
    LedFacts(s, a, e, e);
    EffectFacts(s.port, a);
    ExpectedAfter(s, a);
    NotBlinkedYet(s, Effect(s.port, a));
    var states1, actions1 := Extend(states, actions, a);
    var middle;
    states', actions', middle := FinishBoth(states1, actions1, Blinker);
  }

  lemma NotBlinkedYet(s: State, target: Word)
    requires Inv(s) && s.handler.Idle? && !s.blinker.Idle?
    requires target != s.blinker.target && forall bit: nat :: SameBit(target, s.port, bit)
    ensures target == s.port && !SameBit(s.port, Expected(s), 5) && !SameBit(s.shadow, Expected(s), 5)
    ensures s.blinker.position <= 5
  {
    assert forall bit: nat :: bit != 5 ==> !Own(Blinker, bit);
    assert target == s.port by {
      forall bit: nat ensures bit in target <==> bit in s.port {
        assert SameBit(target, s.port, bit);
      }
    }
    if SameBit(s.port, Expected(s), 5) {
      forall bit: nat ensures bit in s.port <==> bit in Expected(s) {
        assert SameBit(s.port, Expected(s), bit);
      }
      assert false;
    }
  }

  /** Every extension of a run by a step, clear from then on, that ends with no call in
      progress ends with the LEDs as they should be. */
  ghost predicate Harmless(states: seq<State>, actions: seq<Action>, a: Action)
    requires |states| == |actions| + 1 && Enabled(Last(states), a)
  {
    forall states', actions' ::
      Extends(states + [Apply(Last(states), a)], actions + [a], states', actions') && Last(states').Quiet() ==>
        Last(states').port == Expected(Last(states'))
  }

  /** After calls that were clear of each other, the next step is harmless exactly when it is
      clear: every LED call that begins during a call of the other task with another target
      can lose an update. */
  lemma HarmlessExactlyWhenClear(states: seq<State>, actions: seq<Action>, a: Action)
    requires Run(states, actions) && Enabled(Last(states), a)
    requires forall j :: 0 <= j < |actions| ==> Clear(states[j], actions[j])
    ensures Harmless(states, actions, a) <==> Clear(Last(states), a)
  {
    var s := Last(states);
    RunInv(states, actions, |actions|);
    if Clear(s, a) {
      forall states', actions' | Extends(states + [Apply(s, a)], actions + [a], states', actions')
                                 && Last(states').Quiet()
        ensures Last(states').port == Expected(Last(states'))
      {
        AllClear(states, actions, a, states', actions');
        ClearCallsShowEverything(states', actions', |actions'|);
      }
    } else if SameBit(Effect(s.port, a), s.port, LedOf(a)) {
      LedFacts(s, a, s.port, s.port);
      var states', actions' := RepeatOverlaps(states, actions, a);
    } else {
      var states', actions' := ChangeOverlaps(states, actions, a);
    }
  }

  lemma AllClear(states: seq<State>, actions: seq<Action>, a: Action, states': seq<State>, actions': seq<Action>)
    requires Run(states, actions) && Enabled(Last(states), a) && Clear(Last(states), a)
    requires forall j :: 0 <= j < |actions| ==> Clear(states[j], actions[j])
    requires Extends(states + [Apply(Last(states), a)], actions + [a], states', actions')
    ensures forall j :: 0 <= j < |actions'| ==> Clear(states'[j], actions'[j])
  {
    var states1, actions1 := states + [Apply(Last(states), a)], actions + [a];
    forall j | 0 <= j < |actions'| ensures Clear(states'[j], actions'[j]) {
      if j < |actions1| {
        assert states'[j] == states1[j] && actions'[j] == actions1[j];
      }
    }
  }

  /** A keyword that is the one last reported begins nothing. */
  lemma RepeatBeginsNothing(s: State)
    requires Enabled(s, Report(s.reported))
    ensures Apply(s, Report(s.reported)) == s.(events := s.events + [Result(s.reported)])
  {
  }

  /** How a keyword is lost: the blinking task has read the port when the handler turns on the
      LED for "yes"; the blinking task then turns it off again, and a repeated "yes" is not
      reported. */
  lemma YesIsLost() returns (states: seq<State>, actions: seq<Action>)
    ensures Run(states, actions) && Last(states).Quiet()
    ensures Last(states).events == [Event.Blink, Result(Yes)] && Last(states).reported == Yes
    ensures 0 !in Last(states).port && 0 in LedsAlways({}, [Event.Blink, Result(Yes)])
  {
    var events := [Event.Blink, Result(Yes)];
    states, actions := YesDuringBlink(events);
    var middle;
    states, actions, middle := FinishBoth(states, actions, Handler);
    assert events[..1] == [Event.Blink];
  }

  lemma YesDuringBlink(events: seq<Event>) returns (states: seq<State>, actions: seq<Action>)
    requires events == [Event.Blink, Result(Yes)]
    ensures Run(states, actions)
    ensures Last(states) == State({}, {}, Yes, Comparing(LED_YES, 0), Comparing(LED_ALIVE, 0), events)
  {
    states, actions := Extend([START], [], Toggle);
    assert Xor({}, LED_ALIVE) == LED_ALIVE;
    states, actions := Extend(states, actions, Report(Yes));
    assert LedsAfter({}, Yes) == LED_YES;
  }
}
