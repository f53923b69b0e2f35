/** The three parties around the sliding window, as steps that interleave freely: the
    streaming hardware, the callback task that its interrupt notifies, and the reader. */
module AudioProtocol {
  import opened Arithmetic
  import opened SlidingWindow

  /** The sizes, and the samples the hardware is going to deliver. */
  datatype Config = Config(g: Geometry, stream: nat -> int) {
    predicate Valid() {
      g.Valid() && g.blockCount >= 2
    }

    /** What the k-th read promises: the samples one window long, k strides on. */
    function Window(k: nat): seq<int> {
      seq(g.windowSize, j requires 0 <= j => stream(k * g.strideSize + j))
    }
  }

  /** The callback task: asleep, woken and about to test the event, about to call the
      sliding window, between updating the block and giving the semaphore, or gone wrong in a
      call without a window. */
  datatype CallbackPc = Asleep | Testing | Calling | Giving | Faulted

  /** Registration of the window: first its callback, then the window it is to be given. */
  datatype Installed = Nothing | CallbackOnly | CallbackAndWindow

  /** The reader: outside a read, about to sample the block under write for the first or the
      last block, about to take the semaphore, or having copied some samples. */
  datatype ReaderPc = Outside | CheckFirst | CheckLast | Taking | Copying(done: nat)

  datatype State = State(
    buffer: seq<int>,      // the shared audio buffer
    completed: nat,        // blocks completed by the hardware since the start
    overflows: nat,        // interrupts raised without a completed block
    event: bool,           // the last event contains "receive complete"
    notifications: nat,    // notification value of the callback task
    installed: Installed,  // what the reader's task has registered so far
    callback: CallbackPc,
    blockUnderWrite: nat,
    signalled: nat,        // callbacks received by the window since the start
    semaphore: bool,
    reader: ReaderPc,
    currentStride: nat,
    seen: nat,             // value that made the last guard evaluation fail
    dest: seq<int>,        // samples copied so far by the current read
    outputs: seq<seq<int>>,// results of the finished reads
    tokens: nat,           // semaphore value when the current read began
    gives: nat,            // gives since the current read began
    takes: nat)            // takes by the current read

  predicate Initial(c: Config, s: State)
    requires c.Valid()
  {
    && |s.buffer| == c.g.BufferSize()
    && s.completed == 0 && s.overflows == 0 && !s.event && s.notifications == 0
    && s.installed == Nothing
    && s.callback == Asleep && s.blockUnderWrite == 0 && s.signalled == 0 && s.semaphore
    && s.reader == Outside && s.currentStride == 0 && s.outputs == []
  }

  datatype Action =
    | HardwareWrite(offset: nat, sample: int)
    | HardwareComplete
    | HardwareOverflow
    | Install
    | TakeNotification
    | TestEvent
    | UpdateBlock
    | GiveSemaphore
    | BeginRead
    | SampleFirst
    | SampleLast
    | TakeSemaphore
    | CopySample
    | EndRead

  /** The cell of the block under write, in the hardware's own count. */
  function WriteIndex(c: Config, completed: nat, offset: nat): (i: nat)
    requires c.Valid() && offset < c.g.blockSize
    ensures i == (completed * c.g.blockSize + offset) % c.g.BufferSize()
    ensures i < c.g.BufferSize()
  {
    CellInRing(completed, offset, c.g.blockCount, c.g.blockSize);
    (completed % c.g.blockCount) * c.g.blockSize + offset
  }

  ghost predicate Enabled(c: Config, s: State, a: Action)
    requires c.Valid() && |s.buffer| == c.g.BufferSize()
  {
    match a
    case HardwareWrite(offset, _) => offset < c.g.blockSize
    case HardwareComplete =>
      forall o: nat :: o < c.g.blockSize ==>
        s.buffer[WriteIndex(c, s.completed, o)] == c.stream(s.completed * c.g.blockSize + o)
    case HardwareOverflow => true
    case Install => s.installed != CallbackAndWindow
    case TakeNotification => s.callback == Asleep && s.notifications > 0
    case TestEvent => s.callback == Testing
    case UpdateBlock => s.callback == Calling
    case GiveSemaphore => s.callback == Giving
    case BeginRead => s.reader == Outside
    case SampleFirst => s.reader == CheckFirst
    case SampleLast => s.reader == CheckLast
    case TakeSemaphore => s.reader == Taking && s.semaphore
    case CopySample =>
      s.reader.Copying? && s.reader.done < c.g.windowSize &&
      0 <= c.g.CopyIndex(s.currentStride, s.reader.done) < |s.buffer|
    case EndRead => s.reader == Copying(c.g.windowSize)
  }

  ghost function Apply(c: Config, s: State, a: Action): (s': State)
    requires c.Valid() && |s.buffer| == c.g.BufferSize() && Enabled(c, s, a)
    ensures |s'.buffer| == c.g.BufferSize()
  {
    match a
    case HardwareWrite(offset, sample) =>
      s.(buffer := s.buffer[WriteIndex(c, s.completed, offset) := sample])
    case HardwareComplete =>
      s.(completed := s.completed + 1, event := true, notifications := s.notifications + 1)
    case HardwareOverflow =>
      s.(overflows := s.overflows + 1, event := false, notifications := s.notifications + 1)
    case Install => s.(installed := if s.installed == Nothing then CallbackOnly else CallbackAndWindow)
    case TakeNotification => s.(callback := Testing, notifications := 0)
    case TestEvent => s.(callback := if s.event && s.installed != Nothing then Calling else Asleep)
    case UpdateBlock =>
      if s.installed != CallbackAndWindow then s.(callback := Faulted)
      else
        s.(callback := Giving,
           blockUnderWrite := (s.blockUnderWrite + 1) % c.g.blockCount,
           signalled := s.signalled + 1)
    case GiveSemaphore => s.(callback := Asleep, semaphore := true, gives := s.gives + 1)
    case BeginRead =>
      s.(reader := CheckFirst, dest := [],
         tokens := if s.semaphore then 1 else 0, gives := 0, takes := 0)
    case SampleFirst =>
      if c.g.FirstBlock(s.currentStride) == s.blockUnderWrite
      then s.(reader := Taking, seen := s.blockUnderWrite)
      else s.(reader := CheckLast)
    case SampleLast =>
      if c.g.LastBlock(s.currentStride) == s.blockUnderWrite
      then s.(reader := Taking, seen := s.blockUnderWrite)
      else s.(reader := Copying(0))
    case TakeSemaphore => s.(reader := CheckFirst, semaphore := false, takes := s.takes + 1)
    case CopySample =>
      s.(reader := Copying(s.reader.done + 1),
         dest := s.dest + [s.buffer[c.g.CopyIndex(s.currentStride, s.reader.done)]])
    case EndRead =>
      c.g.StrideFacts();
      s.(reader := Outside, outputs := s.outputs + [s.dest],
         currentStride := (s.currentStride + 1) % c.g.StrideCount())
  }

  /** A run: any interleaving of enabled steps from an initial state. */
  ghost predicate Run(c: Config, states: seq<State>, actions: seq<Action>)
    requires c.Valid()
  {
    && |states| == |actions| + 1
    && (forall i :: 0 <= i < |states| ==> |states[i].buffer| == c.g.BufferSize())
    && Initial(c, states[0])
    && forall i :: 0 <= i < |actions| ==>
         Enabled(c, states[i], actions[i]) && states[i + 1] == Apply(c, states[i], actions[i])
  }

  // ----- What every step keeps, without any assumption on speed

  /** The counters: reader's block <= signalled <= interrupts raised. */
  ghost predicate CountersOk(c: Config, s: State)
    requires c.Valid()
  {
    c.g.StrideFacts();
    var k := |s.outputs|;
    && s.blockUnderWrite == s.signalled % c.g.blockCount
    && s.currentStride == k % c.g.StrideCount()
    && s.signalled + (if s.callback in {Testing, Calling} then 1 else 0)
       + (if s.notifications > 0 then 1 else 0) <= s.completed + s.overflows
    && c.g.StartBlock(k) <= s.signalled
    && (s.reader == CheckLast ==> c.g.StartBlock(k) < s.signalled)
    && (s.reader.Copying? ==> c.g.EndBlock(k) < s.signalled && s.reader.done <= c.g.windowSize)
    && (s.reader.Copying? ==> |s.dest| == s.reader.done)
    && (s.reader in {CheckFirst, CheckLast, Taking} ==> s.dest == [])
  }

  /** The semaphore: a reader asleep has missed no update of the block under write, and a
      read never takes the semaphore more often than it was given. */
  ghost predicate SemaphoreOk(c: Config, s: State)
    requires c.Valid()
  {
    && (s.reader == Taking ==>
          (s.seen == c.g.FirstBlock(s.currentStride) || s.seen == c.g.LastBlock(s.currentStride)))
    && (s.reader == Taking && !s.semaphore && s.callback != Giving ==> s.blockUnderWrite == s.seen)
    && (s.reader != Outside ==> s.takes + (if s.semaphore then 1 else 0) <= s.tokens + s.gives)
  }

  /** Every block completed and not yet due for overwriting holds its part of the stream. */
  ghost predicate BufferOk(c: Config, s: State)
    requires c.Valid() && |s.buffer| == c.g.BufferSize()
  {
    c.g.StrideFacts();
    forall p: nat :: Retained(c, s.completed, p) ==> s.buffer[p % c.g.BufferSize()] == c.stream(p)
  }

  predicate Retained(c: Config, completed: nat, p: nat) {
    p < completed * c.g.blockSize && (completed + 1) * c.g.blockSize <= p + c.g.BufferSize()
  }

  ghost predicate Inv(c: Config, s: State)
    requires c.Valid() && |s.buffer| == c.g.BufferSize()
  {
    CountersOk(c, s) && SemaphoreOk(c, s) && BufferOk(c, s)
  }

  lemma InitialInv(c: Config, s: State)
    requires c.Valid() && Initial(c, s)
    ensures Inv(c, s)
  {
    c.g.StrideFacts();
    assert c.g.StartBlock(0) == 0;
  }

  lemma CountersStep(c: Config, s: State, a: Action)
    requires c.Valid() && |s.buffer| == c.g.BufferSize() && Enabled(c, s, a)
    requires CountersOk(c, s)
    ensures CountersOk(c, Apply(c, s, a))
  {
    match a
    case SampleFirst => SampleCounters(c, s, a);
    case SampleLast => SampleCounters(c, s, a);
    case EndRead => EndReadCounters(c, s);
    case BeginRead => WaitCounters(c, s, a);
    case TakeSemaphore => WaitCounters(c, s, a);
    case CopySample => WaitCounters(c, s, a);
    case _ => OtherCounters(c, s, a);
  }

  lemma WaitCounters(c: Config, s: State, a: Action)
    requires c.Valid() && |s.buffer| == c.g.BufferSize() && Enabled(c, s, a)
    requires a in {BeginRead, TakeSemaphore, CopySample} && CountersOk(c, s)
    ensures CountersOk(c, Apply(c, s, a))
  {
  }

  /** The hardware and the callback task leave the reader's part alone. */
  lemma OtherCounters(c: Config, s: State, a: Action)
    requires c.Valid() && |s.buffer| == c.g.BufferSize() && Enabled(c, s, a)
    requires a !in {BeginRead, TakeSemaphore, CopySample, SampleFirst, SampleLast, EndRead} && CountersOk(c, s)
    ensures CountersOk(c, Apply(c, s, a))
  {
    NextInRing(s.signalled, c.g.blockCount);
  }

  /** A sample that differs from the reader's block means that the block has been signalled. */
  lemma SampleCounters(c: Config, s: State, a: Action)
    requires c.Valid() && |s.buffer| == c.g.BufferSize() && a in {SampleFirst, SampleLast} && Enabled(c, s, a)
    requires CountersOk(c, s)
    ensures CountersOk(c, Apply(c, s, a))
  {
    c.g.StrideInRing(|s.outputs|);
  }

  lemma EndReadCounters(c: Config, s: State)
    requires c.Valid() && |s.buffer| == c.g.BufferSize() && Enabled(c, s, EndRead)
    requires CountersOk(c, s)
    ensures CountersOk(c, Apply(c, s, EndRead))
  {
    c.g.StrideFacts();
    NextInRing(|s.outputs|, c.g.StrideCount());
    NextWindowStarts(c.g, |s.outputs|);
  }

  /** The next window starts no later than the block this one ends in. */
  lemma NextWindowStarts(g: Geometry, k: nat)
    requires g.Valid()
    ensures g.StartBlock(k + 1) <= g.EndBlock(k)
  {
    var position := k * g.strideSize;
    assert (k + 1) * g.strideSize == position + g.strideSize;
    DivMonotone(position + g.strideSize, position + g.windowSize - 1, g.blockSize);
  }

  lemma NextInRing(x: nat, d: nat)
    requires d > 0
    ensures (x % d + 1) % d == (x + 1) % d
  {
    AddMultiple(x % d + 1, x / d, d);
  }

  lemma SemaphoreStep(c: Config, s: State, a: Action)
    requires c.Valid() && |s.buffer| == c.g.BufferSize() && Enabled(c, s, a)
    requires SemaphoreOk(c, s)
    ensures SemaphoreOk(c, Apply(c, s, a))
  {
  }

  lemma BufferStep(c: Config, s: State, a: Action)
    requires c.Valid() && |s.buffer| == c.g.BufferSize() && Enabled(c, s, a)
    requires BufferOk(c, s)
    ensures BufferOk(c, Apply(c, s, a))
  {
    var s' := Apply(c, s, a);
    match a
    case HardwareWrite(offset, sample) => WriteKeepsRetained(c, s, offset, sample);
    case HardwareComplete => CompleteExtendsRetained(c, s);
    case _ =>
  }

  lemma WriteKeepsRetained(c: Config, s: State, offset: nat, sample: int)
    requires c.Valid() && |s.buffer| == c.g.BufferSize() && offset < c.g.blockSize
    requires BufferOk(c, s)
    ensures BufferOk(c, Apply(c, s, HardwareWrite(offset, sample)))
  {
    var base := s.completed * c.g.blockSize;
    forall p: nat | Retained(c, s.completed, p)
      ensures p % c.g.BufferSize() != WriteIndex(c, s.completed, offset)
    {
      assert (s.completed + 1) * c.g.blockSize == base + c.g.blockSize;
      DistinctInRing(p, base + offset, c.g.BufferSize());
    }
  }

  lemma CompleteExtendsRetained(c: Config, s: State)
    requires c.Valid() && |s.buffer| == c.g.BufferSize() && Enabled(c, s, HardwareComplete)
    requires BufferOk(c, s)
    ensures BufferOk(c, Apply(c, s, HardwareComplete))
  {
    var base := s.completed * c.g.blockSize;
    assert (s.completed + 1) * c.g.blockSize == base + c.g.blockSize;
    assert (s.completed + 2) * c.g.blockSize == base + 2 * c.g.blockSize;
    forall p: nat | Retained(c, s.completed + 1, p)
      ensures s.buffer[p % c.g.BufferSize()] == c.stream(p)
    {
      if p >= base {
        assert s.buffer[WriteIndex(c, s.completed, p - base)] == c.stream(base + (p - base));
      } else {
        assert Retained(c, s.completed, p);
      }
    }
  }

  /** Every state of every run satisfies the invariant. */
  lemma {:induction false} RunInv(c: Config, states: seq<State>, actions: seq<Action>, i: nat)
    requires c.Valid() && Run(c, states, actions) && i < |states|
    ensures Inv(c, states[i])
  {
    if i == 0 {
      InitialInv(c, states[0]);
    } else {
      RunInv(c, states, actions, i - 1);
      CountersStep(c, states[i - 1], actions[i - 1]);
      SemaphoreStep(c, states[i - 1], actions[i - 1]);
      BufferStep(c, states[i - 1], actions[i - 1]);
    }
  }

  // ----- Main results

  /** The position in the stream of the sample that the reader copies next. */
  function NextSample(c: Config, s: State): nat
    requires s.reader.Copying?
  {
    |s.outputs| * c.g.strideSize + s.reader.done
  }

  /** The hardware has not come round to the block of the next sample. */
  predicate Unlapped(c: Config, s: State)
    requires c.g.Valid()
  {
    s.reader.Copying? && s.reader.done < c.g.windowSize ==>
      s.completed < NextSample(c, s) / c.g.blockSize + c.g.blockCount
  }

  /** What has been read so far is the stream. */
  ghost predicate ReadsOk(c: Config, s: State) {
    && (forall k :: 0 <= k < |s.outputs| ==> s.outputs[k] == c.Window(k))
    && (s.reader.Copying? ==> s.reader.done <= c.g.windowSize && s.dest == c.Window(|s.outputs|)[..s.reader.done])
  }

  lemma ReadsStep(c: Config, s: State, a: Action)
    requires c.Valid() && |s.buffer| == c.g.BufferSize() && Enabled(c, s, a)
    requires Inv(c, s) && s.overflows == 0 && Unlapped(c, s) && ReadsOk(c, s)
    ensures ReadsOk(c, Apply(c, s, a))
  {
    if a == CopySample {
      CopiedSample(c, s);
      var done, window := s.reader.done, c.Window(|s.outputs|);
      assert window[..done + 1] == window[..done] + [window[done]];
    } else if a == EndRead {
      var window := c.Window(|s.outputs|);
      assert window[..c.g.windowSize] == window;
    }
  }

  /** The sample the reader copies next is in a block already complete and not yet reused. */
  lemma CopiedSample(c: Config, s: State)
    requires c.Valid() && |s.buffer| == c.g.BufferSize() && Enabled(c, s, CopySample)
    requires Inv(c, s) && s.overflows == 0 && Unlapped(c, s)
    ensures s.buffer[c.g.CopyIndex(s.currentStride, s.reader.done)]
        == c.stream(|s.outputs| * c.g.strideSize + s.reader.done)
  {
    var k, done := |s.outputs|, s.reader.done;
    var p := k * c.g.strideSize + done;
    c.g.CopyIndexInRing(k, done);
    DivMonotone(p, k * c.g.strideSize + c.g.windowSize - 1, c.g.blockSize);
    DivMonotone(k * c.g.strideSize, p, c.g.blockSize);
    RetainedByBlock(c, s.completed, p);
  }

  lemma RetainedByBlock(c: Config, completed: nat, p: nat)
    requires c.Valid()
    requires p / c.g.blockSize < completed < p / c.g.blockSize + c.g.blockCount
    ensures Retained(c, completed, p)
  {
    var block, row := c.g.blockSize, p / c.g.blockSize;
    MulMonotone(row + 1, completed, block);
    MulMonotone(completed + 1, row + c.g.blockCount, block);
    Distribute(row, c.g.blockCount, block);
    Distribute(row, 1, block);
  }

  /** Each read returns its own part of the stream, in every interleaving in which the
      hardware never comes round to the block of a sample about to be copied, and every
      interrupt completes a block. */
  lemma {:induction false} ReadsAreTheStream(c: Config, states: seq<State>, actions: seq<Action>, i: nat)
    requires c.Valid() && Run(c, states, actions) && i < |states|
    requires forall j :: 0 <= j < |states| ==> Unlapped(c, states[j])
    requires HardwareOverflow !in actions
    ensures states[i].overflows == 0 && ReadsOk(c, states[i])
    ensures forall k :: 0 <= k < |states[i].outputs| ==> states[i].outputs[k] == c.Window(k)
  {
    if i > 0 {
      ReadsAreTheStream(c, states, actions, i - 1);
      RunInv(c, states, actions, i - 1);
      assert actions[i - 1] in actions;
      ReadsStep(c, states[i - 1], actions[i - 1]);
    }
  }

  /** Reader's block <= signalled <= completed, whatever the speeds. */
  lemma CountersOrdered(c: Config, states: seq<State>, actions: seq<Action>, i: nat)
    requires c.Valid() && Run(c, states, actions) && i < |states|
    ensures c.g.StartBlock(|states[i].outputs|) <= states[i].signalled
    ensures states[i].signalled <= states[i].completed + states[i].overflows
    ensures states[i].reader.Copying? ==> c.g.EndBlock(|states[i].outputs|) < states[i].signalled
  {
    RunInv(c, states, actions, i);
  }

  /** No wake-up is lost: a reader asleep on an empty semaphore, with no give on its way,
      would fail its guard again, because its window touches the block under write. */
  lemma NoLostWakeUp(c: Config, states: seq<State>, actions: seq<Action>, i: nat)
    requires c.Valid() && Run(c, states, actions) && i < |states|
    requires states[i].reader == Taking && !states[i].semaphore && states[i].callback != Giving
    ensures states[i].blockUnderWrite == states[i].seen
    ensures c.g.Blocked(states[i].currentStride, states[i].blockUnderWrite)
  {
    RunInv(c, states, actions, i);
  }

  /** The wait loop runs at most once per token found at entry and per signal since. */
  lemma WaitIsBounded(c: Config, states: seq<State>, actions: seq<Action>, i: nat)
    requires c.Valid() && Run(c, states, actions) && i < |states|
    requires states[i].reader != Outside
    ensures states[i].takes <= states[i].tokens + states[i].gives
  {
    RunInv(c, states, actions, i);
  }

  /** With two blocks, a window over both of them is never read without being lapped:
      passing the two samples means both blocks have been signalled again since. */
  lemma TwoBlocksStraddle(c: Config, states: seq<State>, actions: seq<Action>, i: nat)
    requires c.Valid() && Run(c, states, actions) && i < |states|
    requires c.g.blockCount == 2 && states[i].reader.Copying? && states[i].overflows == 0
    requires c.g.StartBlock(|states[i].outputs|) != c.g.EndBlock(|states[i].outputs|)
    ensures states[i].completed >= c.g.StartBlock(|states[i].outputs|) + c.g.blockCount
  {
    RunInv(c, states, actions, i);
    c.g.StrideInRing(|states[i].outputs|);
  }

  /** A run up to the first block complete. */
  lemma FirstBlockComplete(c: Config) returns (states: seq<State>, actions: seq<Action>)
    requires c == Config(Geometry(4, 2, 2, 1), x => 0)
    ensures Run(c, states, actions) && HardwareOverflow !in actions
    ensures states[|actions|] ==
            State(seq(8, _ => 0), 1, 0, true, 1, CallbackAndWindow, Asleep, 0, 0, true, Outside, 0, 0, [], [], 0, 0, 0)
  {
    var start := State(seq(8, _ => 0), 0, 0, false, 0, Nothing, Asleep, 0, 0, true, Outside, 0, 0, [], [], 0, 0, 0);
    states, actions := Extend(c, [start], [], Install);
    states, actions := Extend(c, states, actions, Install);
    states, actions := Extend(c, states, actions, HardwareComplete);
  }

  /** The same run continued until the block is signalled. */
  lemma FirstBlockSignalled(c: Config) returns (states: seq<State>, actions: seq<Action>)
    requires c == Config(Geometry(4, 2, 2, 1), x => 0)
    ensures Run(c, states, actions) && HardwareOverflow !in actions
    ensures states[|actions|] ==
            State(seq(8, _ => 0), 1, 0, true, 0, CallbackAndWindow, Giving, 1, 1, true, Outside, 0, 0, [], [], 0, 0, 0)
  {
    states, actions := FirstBlockComplete(c);
    states, actions := Extend(c, states, actions, TakeNotification);
    states, actions := Extend(c, states, actions, TestEvent);
    states, actions := Extend(c, states, actions, UpdateBlock);
  }

  /** The same run continued to a reader that has passed its guard. */
  lemma ReaderPassesGuard(c: Config) returns (states: seq<State>, actions: seq<Action>)
    requires c == Config(Geometry(4, 2, 2, 1), x => 0)
    ensures Run(c, states, actions) && HardwareOverflow !in actions
    ensures states[|actions|] ==
            State(seq(8, _ => 0), 1, 0, true, 0, CallbackAndWindow, Giving, 1, 1, true,
                Copying(0), 0, 0, [], [], 1, 0, 0)
  {
    states, actions := FirstBlockSignalled(c);
    states, actions := Extend(c, states, actions, BeginRead);
    states, actions := Extend(c, states, actions, SampleFirst);
    states, actions := Extend(c, states, actions, SampleLast);
  }

  /** The hardware completes the second block and starts over on the reader's block. */
  lemma ReaderIsLapped(c: Config) returns (states: seq<State>, actions: seq<Action>)
    requires c == Config(Geometry(4, 2, 2, 1), x => 0)
    ensures Run(c, states, actions) && HardwareOverflow !in actions
    ensures states[|actions|] ==
            State(seq(8, _ => 0)[0 := 7], 2, 0, true, 1, CallbackAndWindow, Giving, 1, 1, true,
                Copying(0), 0, 0, [], [], 1, 0, 0)
  {
    states, actions := ReaderPassesGuard(c);
    states, actions := Extend(c, states, actions, HardwareComplete);
    states, actions := Extend(c, states, actions, HardwareWrite(0, 7));
  }

  /** Without the bound on the hardware's speed a read can return what is not the stream:
      here the hardware starts on the reader's block between the guard and the copy. */
  lemma LappedReadDiffers() returns (c: Config, states: seq<State>, actions: seq<Action>)
    ensures c.Valid() && Run(c, states, actions)
    ensures HardwareOverflow !in actions
    ensures |states[|actions|].outputs| == 1 && states[|actions|].outputs[0] != c.Window(0)
  {
    c := Config(Geometry(4, 2, 2, 1), x => 0);
    states, actions := ReaderIsLapped(c);
    states, actions := Extend(c, states, actions, CopySample);
    states, actions := Extend(c, states, actions, CopySample);
    states, actions := Extend(c, states, actions, EndRead);
    assert states[|actions|].outputs[0][0] == 7;
    assert c.Window(0)[0] == 0;
  }

  /** A run goes on with any step its last state enables. */
  lemma Extend(c: Config, states: seq<State>, actions: seq<Action>, a: Action)
    returns (states': seq<State>, actions': seq<Action>)
    requires c.Valid() && Run(c, states, actions) && Enabled(c, states[|actions|], a)
    ensures Run(c, states', actions') && |actions'| == |actions| + 1
    ensures states' == states + [Apply(c, states[|actions|], a)] && actions' == actions + [a]
    ensures states'[|actions'|] == Apply(c, states[|actions|], a)
    ensures forall b :: b in actions' <==> b in actions || b == a
  {
    states', actions' := states + [Apply(c, states[|actions|], a)], actions + [a];
  }
}
