/** Who owns a log buffer. Any number of tasks allocate buffers, fill them and send them to a
    bounded queue without blocking; the logging task prints what it receives. */
module LogQueue {

  /** A task inside a logging call: filling its buffer, or left with it after a refused send
      or an empty message. */
  datatype Producer = Filling(buffer: nat) | Refused(buffer: nat)

  datatype LoggerPc = Waiting | Received(buffer: nat) | Printed(buffer: nat)

  datatype State = State(
    next: nat,                   // buffers allocated so far
    memory: map<nat, string>,    // the buffers that are not freed
    producers: map<nat, Producer>,
    queue: seq<nat>,
    logger: LoggerPc,
    freed: seq<nat>,             // calls of free, in order
    accepted: seq<string>,       // messages at the time they were sent
    printed: seq<string>)

  const INITIAL := State(0, map[], map[], [], Waiting, [], [], [])

  datatype Action =
    | Allocate(task: nat)
    | Fill(task: nat, text: string)
    | Send(task: nat)
    | SkipEmpty(task: nat)
    | FreeRefused(task: nat)
    | Receive
    | Print
    | FreePrinted

  predicate Enabled(s: State, a: Action) {
    match a
    case Allocate(task) => task !in s.producers
    case Fill(task, _) => task in s.producers && s.producers[task].Filling?
    case Send(task) => task in s.producers && s.producers[task].Filling?
    case SkipEmpty(task) => task in s.producers && s.producers[task].Filling?
    case FreeRefused(task) => task in s.producers && s.producers[task].Refused?
    case Receive => s.logger == Waiting && s.queue != []
    case Print => s.logger.Received?
    case FreePrinted => s.logger.Printed?
  }

  /** The text of a buffer; reading one that is freed would give nothing defined. */
  function TextOf(s: State, b: nat): string {
    if b in s.memory then s.memory[b] else "undefined"
  }

  /** Each step copies or drops pointers exactly as the code does; nothing here forces a
      buffer to have one owner. */
  function Apply(s: State, a: Action, capacity: nat): State
    requires Enabled(s, a)
  {
    match a
    case Allocate(task) =>
      s.(next := s.next + 1, memory := s.memory[s.next := ""], producers := s.producers[task := Filling(s.next)])
    case Fill(task, text) => s.(memory := s.memory[s.producers[task].buffer := text])
    case Send(task) =>
      var b := s.producers[task].buffer;
      if |s.queue| < capacity
      then s.(queue := s.queue + [b], accepted := s.accepted + [TextOf(s, b)], producers := s.producers - {task})
      else s.(producers := s.producers[task := Refused(b)])
    case SkipEmpty(task) => s.(producers := s.producers[task := Refused(s.producers[task].buffer)])
    case FreeRefused(task) =>
      var b := s.producers[task].buffer;
      s.(freed := s.freed + [b], memory := s.memory - {b}, producers := s.producers - {task})
    case Receive => s.(queue := s.queue[1..], logger := Received(s.queue[0]))
    case Print => s.(printed := s.printed + [TextOf(s, s.logger.buffer)], logger := Printed(s.logger.buffer))
    case FreePrinted =>
      s.(freed := s.freed + [s.logger.buffer], memory := s.memory - {s.logger.buffer}, logger := Waiting)
  }

  ghost predicate Run(states: seq<State>, actions: seq<Action>, capacity: nat) {
    && |states| == |actions| + 1
    && states[0] == INITIAL
    && forall i :: 0 <= i < |actions| ==>
         Enabled(states[i], actions[i]) && states[i + 1] == Apply(states[i], actions[i], capacity)
  }

  // ----- Ownership

  predicate HeldBy(s: State, task: nat, b: nat) {
    task in s.producers && s.producers[task].buffer == b
  }

  ghost predicate Held(s: State, b: nat) {
    exists task :: HeldBy(s, task, b)
  }

  predicate WithLogger(s: State, b: nat) {
    s.logger != Waiting && s.logger.buffer == b
  }

  /** How many of the four places have the buffer, counting the queue and the calls of free
      as often as they mention it. */
  ghost function Places(s: State, b: nat): nat {
    (if Held(s, b) then 1 else 0) + multiset(s.queue)[b] + (if WithLogger(s, b) then 1 else 0) + multiset(s.freed)[b]
  }

  ghost predicate Inv(s: State, capacity: nat) {
    && (forall b: nat :: Places(s, b) == if b < s.next then 1 else 0)
    && (forall t, u, b :: HeldBy(s, t, b) && HeldBy(s, u, b) ==> t == u)
    && (forall b: nat :: b in s.memory <==> b < s.next && b !in multiset(s.freed))
    && |s.queue| <= capacity
    && TextsOk(s)
  }

  function QueueTexts(s: State, queue: seq<nat>): (texts: seq<string>)
    ensures |texts| == |queue|
  {
    seq(|queue|, i requires 0 <= i < |queue| => TextOf(s, queue[i]))
  }

  /** Every accepted text is printed, with the logger, or waiting in the queue, in this order. */
  ghost predicate TextsOk(s: State) {
    s.accepted == s.printed + (if s.logger.Received? then [TextOf(s, s.logger.buffer)] else []) + QueueTexts(s, s.queue)
  }

  lemma AllocateKeepsOwners(s: State, task: nat, capacity: nat)
    requires Inv(s, capacity) && Enabled(s, Allocate(task))
    ensures Inv(Apply(s, Allocate(task), capacity), capacity)
  {
    var s' := Apply(s, Allocate(task), capacity);
    assert forall t, b :: HeldBy(s', t, b) <==> HeldBy(s, t, b) || (t == task && b == s.next);
    assert Places(s, s.next) == 0;
    assert HeldBy(s', task, s.next);
    forall b: nat ensures Places(s', b) == if b < s'.next then 1 else 0 {
      assert Places(s, b) == if b < s.next then 1 else 0;
      assert Held(s', b) <==> Held(s, b) || b == s.next;
    }
    assert forall b: nat :: b in s.queue ==> Places(s, b) == 1 by {
      assert forall b :: b in s.queue <==> b in multiset(s.queue);
    }
    assert QueueTexts(s', s'.queue) == QueueTexts(s, s.queue);
  }

  lemma FillKeepsOwners(s: State, task: nat, text: string, capacity: nat)
    requires Inv(s, capacity) && Enabled(s, Fill(task, text))
    ensures Inv(Apply(s, Fill(task, text), capacity), capacity)
  {
    var s', mine := Apply(s, Fill(task, text), capacity), s.producers[task].buffer;
    assert HeldBy(s, task, mine) && Places(s, mine) <= 1;
    assert forall t, b :: HeldBy(s', t, b) <==> HeldBy(s, t, b);
    assert forall b :: Held(s', b) <==> Held(s, b);
    assert forall b: nat :: Places(s', b) == Places(s, b);
    assert mine !in s.queue by {
      assert mine in s.queue <==> mine in multiset(s.queue);
    }
    assert QueueTexts(s', s'.queue) == QueueTexts(s, s.queue);
  }

  lemma SendKeepsOwners(s: State, task: nat, capacity: nat)
    requires Inv(s, capacity) && Enabled(s, Send(task))
    ensures Inv(Apply(s, Send(task), capacity), capacity)
  {
    var s', mine := Apply(s, Send(task), capacity), s.producers[task].buffer;
    assert HeldBy(s, task, mine);
    if |s.queue| < capacity {
      DropHolder(s, s', task);
      assert QueueTexts(s', s'.queue) == QueueTexts(s, s.queue) + [TextOf(s, mine)];
    } else {
      SameHolders(s, s');
      assert QueueTexts(s', s'.queue) == QueueTexts(s, s.queue);
    }
    forall b: nat ensures Places(s', b) == Places(s, b) {
    }
  }

  /** A task that lets go of its buffer was its only holder. */
  lemma DropHolder(s: State, s': State, task: nat)
    requires task in s.producers && s'.producers == s.producers - {task}
    requires forall t, u, b :: HeldBy(s, t, b) && HeldBy(s, u, b) ==> t == u
    ensures forall b :: Held(s', b) <==> Held(s, b) && b != s.producers[task].buffer
    ensures forall t, u, b :: HeldBy(s', t, b) && HeldBy(s', u, b) ==> t == u
  {
    var mine := s.producers[task].buffer;
    assert HeldBy(s, task, mine);
    assert forall t, b :: HeldBy(s', t, b) <==> HeldBy(s, t, b) && t != task;
    forall b ensures Held(s', b) <==> Held(s, b) && b != mine {
      if Held(s, b) && b != mine {
        var t :| HeldBy(s, t, b);
        assert HeldBy(s', t, b);
      }
    }
  }

  lemma SameHolders(s: State, s': State)
    requires forall t, b :: HeldBy(s', t, b) <==> HeldBy(s, t, b)
    ensures forall b :: Held(s', b) <==> Held(s, b)
  {
  }

  lemma FreeRefusedKeepsOwners(s: State, task: nat, capacity: nat)
    requires Inv(s, capacity) && Enabled(s, FreeRefused(task))
    ensures Inv(Apply(s, FreeRefused(task), capacity), capacity)
  {
    var s', mine := Apply(s, FreeRefused(task), capacity), s.producers[task].buffer;
    assert HeldBy(s, task, mine) && Places(s, mine) <= 1;
    DropHolder(s, s', task);
    forall b: nat ensures Places(s', b) == Places(s, b) {
    }
    assert mine !in s.queue by {
      assert mine in s.queue <==> mine in multiset(s.queue);
    }
    assert QueueTexts(s', s'.queue) == QueueTexts(s, s.queue);
  }

  lemma ReceiveKeepsOwners(s: State, capacity: nat)
    requires Inv(s, capacity) && Enabled(s, Receive)
    ensures Inv(Apply(s, Receive, capacity), capacity)
  {
    var s' := Apply(s, Receive, capacity);
    assert s.queue == [s.queue[0]] + s'.queue;
    assert forall t, b :: HeldBy(s', t, b) <==> HeldBy(s, t, b);
    SameHolders(s, s');
    forall b: nat ensures Places(s', b) == Places(s, b) {
    }
    assert QueueTexts(s, s.queue) == [TextOf(s, s.queue[0])] + QueueTexts(s', s'.queue);
  }

  lemma LoggerKeepsOwners(s: State, a: Action, capacity: nat)
    requires Inv(s, capacity) && a in {Print, FreePrinted} && Enabled(s, a)
    ensures Inv(Apply(s, a, capacity), capacity)
  {
    var s', mine := Apply(s, a, capacity), s.logger.buffer;
    assert WithLogger(s, mine) && Places(s, mine) <= 1;
    assert forall t, b :: HeldBy(s', t, b) <==> HeldBy(s, t, b);
    SameHolders(s, s');
    forall b: nat ensures Places(s', b) == Places(s, b) {
    }
    assert mine !in s.queue by {
      assert mine in s.queue <==> mine in multiset(s.queue);
    }
    assert QueueTexts(s', s'.queue) == QueueTexts(s, s.queue);
  }

  lemma StepKeepsInv(s: State, a: Action, capacity: nat)
    requires Inv(s, capacity) && Enabled(s, a)
    ensures Inv(Apply(s, a, capacity), capacity)
  {
    match a
    case Allocate(task) => AllocateKeepsOwners(s, task, capacity);
    case Fill(task, text) => FillKeepsOwners(s, task, text, capacity);
    case Send(task) => SendKeepsOwners(s, task, capacity);
    case SkipEmpty(task) =>
      var s' := Apply(s, a, capacity);
      assert forall t, b :: HeldBy(s', t, b) <==> HeldBy(s, t, b);
      SameHolders(s, s');
      assert forall b: nat :: Places(s', b) == Places(s, b);
      assert QueueTexts(s', s'.queue) == QueueTexts(s, s.queue);
    case FreeRefused(task) => FreeRefusedKeepsOwners(s, task, capacity);
    case Receive => ReceiveKeepsOwners(s, capacity);
    case Print => LoggerKeepsOwners(s, a, capacity);
    case FreePrinted => LoggerKeepsOwners(s, a, capacity);
  }

  lemma {:induction false} RunInv(states: seq<State>, actions: seq<Action>, capacity: nat, i: nat)
    requires Run(states, actions, capacity) && i < |states|
    ensures Inv(states[i], capacity)
  {
    if i == 0 {
      assert QueueTexts(INITIAL, []) == [];
    } else {
      RunInv(states, actions, capacity, i - 1);
      StepKeepsInv(states[i - 1], actions[i - 1], capacity);
    }
  }

  // ----- Main results

  /** In every interleaving each allocated buffer is in exactly one place: with one task, in
      the queue once, with the logging task, or freed once. */
  lemma OneOwner(states: seq<State>, actions: seq<Action>, capacity: nat, i: nat, b: nat)
    requires Run(states, actions, capacity) && i < |states|
    ensures Places(states[i], b) == if b < states[i].next then 1 else 0
    ensures forall t, u :: HeldBy(states[i], t, b) && HeldBy(states[i], u, b) ==> t == u
    ensures multiset(states[i].freed)[b] <= 1
  {
    RunInv(states, actions, capacity, i);
  }

  /** No step uses a freed buffer: what a task fills or frees, and what the logger prints or
      frees, is still allocated. */
  lemma NoUseAfterFree(states: seq<State>, actions: seq<Action>, capacity: nat, i: nat)
    requires Run(states, actions, capacity) && i < |states|
    ensures forall t, b :: HeldBy(states[i], t, b) ==> b in states[i].memory
    ensures states[i].logger != Waiting ==> states[i].logger.buffer in states[i].memory
    ensures forall b :: b in states[i].queue ==> b in states[i].memory
  {
    RunInv(states, actions, capacity, i);
    var s := states[i];
    forall t: nat, b: nat | HeldBy(s, t, b) ensures b in s.memory {
      assert Held(s, b) && Places(s, b) == if b < s.next then 1 else 0;
    }
    if s.logger != Waiting {
      assert WithLogger(s, s.logger.buffer) && Places(s, s.logger.buffer) <= 1;
    }
    forall b | b in s.queue ensures b in s.memory {
      assert b in multiset(s.queue) && Places(s, b) == if b < s.next then 1 else 0;
    }
  }

  /** What is printed is a prefix of what was accepted, in order and unaltered, and the queue
      never holds more than its capacity. */
  lemma PrintedInOrder(states: seq<State>, actions: seq<Action>, capacity: nat, i: nat)
    requires Run(states, actions, capacity) && i < |states|
    ensures states[i].printed <= states[i].accepted
    ensures |states[i].accepted| - |states[i].printed| <= capacity + 1
    ensures |states[i].queue| <= capacity
  {
    RunInv(states, actions, capacity, i);
  }

  /** A send is accepted exactly when there is room in the queue; otherwise the task is left
      with its buffer and frees it. */
  lemma SendResult(states: seq<State>, actions: seq<Action>, capacity: nat, i: nat, task: nat)
    requires Run(states, actions, capacity) && i < |actions| && actions[i] == Send(task)
    ensures var s, s' := states[i], states[i + 1];
            && task in s.producers
            && (|s.queue| < capacity ==>
                  s'.accepted == s.accepted + [TextOf(s, s.producers[task].buffer)] && task !in s'.producers)
            && (|s.queue| >= capacity ==>
                  s'.accepted == s.accepted && s'.queue == s.queue
                  && task in s'.producers && s'.producers[task] == Refused(s.producers[task].buffer))
  {
  }

  /** The actions that a task takes itself. */
  predicate OfTask(a: Action, task: nat) {
    match a
    case Allocate(t) => t == task
    case Fill(t, _) => t == task
    case Send(t) => t == task
    case SkipEmpty(t) => t == task
    case FreeRefused(t) => t == task
    case _ => false
  }

  /** No step of another task or of the logging task touches a buffer that a task holds. */
  lemma OthersLeaveIt(s: State, a: Action, capacity: nat, task: nat)
    requires Inv(s, capacity) && Enabled(s, a) && task in s.producers && !OfTask(a, task)
    ensures var s' := Apply(s, a, capacity);
            && task in s'.producers && s'.producers[task] == s.producers[task]
            && TextOf(s', s.producers[task].buffer) == TextOf(s, s.producers[task].buffer)
  {
    var b := s.producers[task].buffer;
    assert HeldBy(s, task, b) && Held(s, b);
    assert Places(s, b) == if b < s.next then 1 else 0;
    match a
    case Fill(t, _) => assert HeldBy(s, t, s.producers[t].buffer);
    case FreeRefused(t) => assert HeldBy(s, t, s.producers[t].buffer);
    case FreePrinted => assert WithLogger(s, s.logger.buffer);
    case _ =>
  }

  /** What a task has filled in is still there when it sends, whatever the others do between. */
  lemma {:induction false} FilledStays(states: seq<State>, actions: seq<Action>, capacity: nat, i: nat, j: nat,
                                       task: nat, text: string)
    requires Run(states, actions, capacity) && i < |actions| && actions[i] == Fill(task, text) && i < j < |states|
    requires forall k :: i < k < j ==> !OfTask(actions[k], task)
    ensures task in states[i].producers && task in states[j].producers
    ensures states[j].producers[task] == states[i].producers[task]
    ensures TextOf(states[j], states[j].producers[task].buffer) == text
  {
    if j > i + 1 {
      FilledStays(states, actions, capacity, i, j - 1, task, text);
      RunInv(states, actions, capacity, j - 1);
      OthersLeaveIt(states[j - 1], actions[j - 1], capacity, task);
    }
  }

  /** The message that is accepted is the one the task filled in. */
  lemma AcceptedIsFilled(states: seq<State>, actions: seq<Action>, capacity: nat, i: nat, j: nat,
                         task: nat, text: string)
    requires Run(states, actions, capacity) && i < j < |actions|
    requires actions[i] == Fill(task, text) && actions[j] == Send(task)
    requires forall k :: i < k < j ==> !OfTask(actions[k], task)
    requires |states[j].queue| < capacity
    ensures states[j + 1].accepted == states[j].accepted + [text]
  {
    FilledStays(states, actions, capacity, i, j, task, text);
    SendResult(states, actions, capacity, j, task);
  }

  /** The logging task's rounds: the buffer it has received is the oldest of the queue, it is
      printed once, and it is freed after that. */
  lemma LoggerRound(states: seq<State>, actions: seq<Action>, capacity: nat, i: nat)
    requires Run(states, actions, capacity) && i < |actions|
    ensures actions[i] == Receive ==> states[i + 1].logger == Received(states[i].queue[0])
    ensures actions[i] == Print ==> |states[i + 1].printed| == |states[i].printed| + 1 && states[i + 1].logger.Printed?
    ensures actions[i] == FreePrinted ==>
              states[i].logger.buffer in states[i + 1].freed && states[i + 1].logger == Waiting
  {
  }

  /** The logging task waits for nothing but a message, and a task inside a call never waits:
      it can send or skip the buffer it has filled, and free the one it is left with. */
  lemma OnlyLoggerWaits(states: seq<State>, actions: seq<Action>, capacity: nat, i: nat, task: nat)
    requires Run(states, actions, capacity) && i < |states|
    ensures var s := states[i];
            && (!(s.logger == Waiting && s.queue == []) ==>
                  exists a :: a in {Receive, Print, FreePrinted} && Enabled(s, a))
            && (task !in s.producers ==> Enabled(s, Allocate(task)))
            && (task in s.producers && s.producers[task].Filling? ==>
                  Enabled(s, Send(task)) && Enabled(s, SkipEmpty(task)) && forall text :: Enabled(s, Fill(task, text)))
            && (task in s.producers && s.producers[task].Refused? ==> Enabled(s, FreeRefused(task)))
  {
    var s := states[i];
    var own := match s.logger case Waiting => Receive case Received(_) => Print case Printed(_) => FreePrinted;
    assert (s.logger == Waiting && s.queue == []) || Enabled(s, own);
  }
}
