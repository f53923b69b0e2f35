/** When a read in progress is safe from the hardware: the exact condition on the state of a
    copying reader under which nothing that the hardware may write before it completes
    another block can change what the read returns; and how soon a waiting reader goes on. */
module ReadSafety {
  import opened Arithmetic
  import opened SlidingWindow
  import opened AudioProtocol
  import opened Sequences

  // ----- What the buffer holds

  /** A stream position's cell is in the block that the hardware is writing. */
  predicate UnderWrite(c: Config, completed: nat, p: nat)
    requires c.Valid()
  {
    (completed - p / c.g.blockSize) % c.g.blockCount == 0
  }

  /** The position that was last written to the cell of position p. */
  function Latest(c: Config, completed: nat, p: nat): int
    requires c.Valid()
  {
    p + ((completed - p / c.g.blockSize) / c.g.blockCount) * c.g.BufferSize()
  }

  /** The cell of position p is out of the hardware's reach and holds the right sample. */
  predicate Settled(c: Config, completed: nat, p: nat)
    requires c.Valid() && p / c.g.blockSize < completed
  {
    && !UnderWrite(c, completed, p)
    && Latest(c, completed, p) >= 0
    && c.stream(Latest(c, completed, p)) == c.stream(p)
  }

  lemma LatestRetained(c: Config, completed: nat, p: nat)
    requires c.Valid() && p / c.g.blockSize < completed && !UnderWrite(c, completed, p)
    ensures c.g.BufferSize() > 0 && Latest(c, completed, p) >= 0
    ensures Retained(c, completed, Latest(c, completed, p))
    ensures Latest(c, completed, p) % c.g.BufferSize() == p % c.g.BufferSize()
  {
    var row, n, width, size := p / c.g.blockSize, c.g.blockCount, c.g.blockSize, c.g.BufferSize();
    var turns := (completed - row) / n;
    DivMod(completed - row, n);
    MultipleSize(n, width);
    LapsLater(p, turns, n, width, size);
    RetainedByBlock(c, completed, p + turns * size);
  }

  /** The cell of p some laps of the ring later. */
  lemma LapsLater(p: nat, turns: nat, rows: nat, width: nat, size: nat)
    requires width > 0 && size == width * rows && size > 0
    ensures turns * size >= 0
    ensures (p + turns * size) / width == p / width + turns * rows
    ensures (p + turns * size) % size == p % size
  {
    MulMonotone(0, turns, size);
    Associate(turns, rows, width);
    AddMultiple(p, turns, size);
    AddMultiple(p, turns * rows, width);
  }

  lemma DivMod(x: int, d: nat)
    requires d > 0
    ensures x == (x / d) * d + x % d && 0 <= x % d < d
  {
  }

  /** What a copy of position p reads. */
  lemma CellHolds(c: Config, s: State, p: nat)
    requires c.Valid() && |s.buffer| == c.g.BufferSize() && BufferOk(c, s)
    requires p / c.g.blockSize < s.completed && !UnderWrite(c, s.completed, p)
    ensures c.g.BufferSize() > 0 && Latest(c, s.completed, p) >= 0
    ensures s.buffer[p % c.g.BufferSize()] == c.stream(Latest(c, s.completed, p))
  {
    LatestRetained(c, s.completed, p);
  }

  lemma UnlappedIsSettled(c: Config, completed: nat, p: nat)
    requires c.Valid() && p / c.g.blockSize < completed < p / c.g.blockSize + c.g.blockCount
    ensures Settled(c, completed, p)
  {
    DivModUnique(completed - p / c.g.blockSize, c.g.blockCount, 0, completed - p / c.g.blockSize);
  }

  /** The cell that the hardware writes when the block of position p is under write. */
  lemma WritesCell(c: Config, completed: nat, p: nat)
    requires c.Valid() && UnderWrite(c, completed, p)
    ensures c.g.BufferSize() > 0 && p % c.g.blockSize < c.g.blockSize
    ensures WriteIndex(c, completed, p % c.g.blockSize) == p % c.g.BufferSize()
  {
    var width := c.g.blockSize;
    DivMod(p, width);
    SameCell(completed, p, p / width, p % width, c.g.blockCount, width, c.g.BufferSize());
  }

  lemma SameCell(row: int, p: nat, k: int, offset: int, rows: nat, width: nat, size: nat)
    requires rows > 0 && 0 <= offset < width && (row - k) % rows == 0
    requires size == rows * width && p == k * width + offset
    ensures size > 0 && (row % rows) * width + offset == p % size
  {
    DivMod(row - k, rows);
    AddMultiple(k, (row - k) / rows, rows);
    CellInRing(k, offset, rows, width);
  }

  // ----- Extensions of a run

  /** From some step on the hardware completes no block. */
  ghost predicate Quiet(actions: seq<Action>, from: nat) {
    forall i :: from <= i < |actions| ==> actions[i] !in {HardwareComplete, HardwareOverflow}
  }

  /** A longer run in which the hardware completes no further block. */
  ghost predicate QuietExtension(c: Config, states: seq<State>, actions: seq<Action>,
      states': seq<State>, actions': seq<Action>)
    requires c.Valid()
  {
    && Run(c, states', actions')
    && |states| == |actions| + 1
    && states <= states' && actions <= actions'
    && Quiet(actions', |actions|)
  }

  /** The read in progress at the end of a run returns its window, whatever follows until
      the hardware completes another block. */
  ghost predicate ReadIsSafe(c: Config, states: seq<State>, actions: seq<Action>)
    requires c.Valid() && states != []
  {
    var k := |Last(states).outputs|;
    forall states', actions' ::
      QuietExtension(c, states, actions, states', actions') && |Last(states').outputs| > k ==>
        Last(states').outputs[k] == c.Window(k)
  }

  /** The samples still to be copied are settled, and those copied are right. */
  ghost predicate RestIsSettled(c: Config, s: State)
    requires c.Valid() && s.reader.Copying? && CountersOk(c, s) && s.overflows == 0
  {
    && s.dest == c.Window(|s.outputs|)[..s.reader.done]
    && forall j :: s.reader.done <= j < c.g.windowSize ==> SampleIsSettled(c, s, j)
  }

  ghost predicate SampleIsSettled(c: Config, s: State, j: nat)
    requires c.Valid() && s.reader.Copying? && CountersOk(c, s) && s.overflows == 0 && j < c.g.windowSize
  {
    SampleSignalled(c, s, j);
    Settled(c, s.completed, |s.outputs| * c.g.strideSize + j)
  }

  /** While copying, the blocks of the whole window are complete. */
  lemma SampleSignalled(c: Config, s: State, j: nat)
    requires c.Valid() && s.reader.Copying? && CountersOk(c, s) && s.overflows == 0 && j < c.g.windowSize
    ensures (|s.outputs| * c.g.strideSize + j) / c.g.blockSize < s.completed
  {
    var begin := |s.outputs| * c.g.strideSize;
    DivMonotone(begin + j, begin + c.g.windowSize - 1, c.g.blockSize);
  }

  // ----- Settled samples are read right in every quiet extension

  /** What the rest of a quiet extension keeps of read k, begun before it. */
  ghost predicate StaysRight(c: Config, s: State, k: nat, completed: nat)
    requires c.Valid()
  {
    && s.completed == completed && s.overflows == 0 && CountersOk(c, s)
    && (|s.outputs| == k ==> s.reader.Copying? && RestIsSettled(c, s))
    && (|s.outputs| >= k)
    && (|s.outputs| > k ==> s.outputs[k] == c.Window(k))
  }

  lemma StaysRightStep(c: Config, s: State, a: Action, k: nat, completed: nat)
    requires c.Valid() && |s.buffer| == c.g.BufferSize() && Enabled(c, s, a)
    requires Inv(c, s) && StaysRight(c, s, k, completed) && a !in {HardwareComplete, HardwareOverflow}
    ensures StaysRight(c, Apply(c, s, a), k, completed)
  {
    CountersStep(c, s, a);
    if |s.outputs| == k {
      if a == CopySample {
        CopyStaysRight(c, s);
      } else if a == EndRead {
        assert c.Window(k)[..c.g.windowSize] == c.Window(k);
      } else {
        OthersStayRight(c, s, a);
      }
    }
  }

  lemma CopyStaysRight(c: Config, s: State)
    requires c.Valid() && |s.buffer| == c.g.BufferSize() && Enabled(c, s, CopySample)
    requires Inv(c, s) && s.overflows == 0 && RestIsSettled(c, s)
    requires CountersOk(c, Apply(c, s, CopySample))
    ensures RestIsSettled(c, Apply(c, s, CopySample))
  {
    var s', window := Apply(c, s, CopySample), c.Window(|s.outputs|);
    assert SampleIsSettled(c, s, s.reader.done);
    CopySettled(c, s);
    assert window[..s.reader.done + 1] == window[..s.reader.done] + [window[s.reader.done]];
    forall j | s'.reader.done <= j < c.g.windowSize ensures SampleIsSettled(c, s', j) {
      assert SampleIsSettled(c, s, j);
    }
  }

  /** Other tasks and the hardware's writes leave the condition alone. */
  lemma OthersStayRight(c: Config, s: State, a: Action)
    requires c.Valid() && |s.buffer| == c.g.BufferSize() && Enabled(c, s, a)
    requires a !in {HardwareComplete, HardwareOverflow, CopySample, EndRead}
    requires CountersOk(c, s) && s.reader.Copying? && s.overflows == 0 && RestIsSettled(c, s)
    requires CountersOk(c, Apply(c, s, a))
    ensures var s' := Apply(c, s, a);
            s'.reader == s.reader && s'.outputs == s.outputs && s'.overflows == 0 && RestIsSettled(c, s')
  {
    var s' := Apply(c, s, a);
    assert s'.reader == s.reader && s'.outputs == s.outputs && s'.dest == s.dest && s'.completed == s.completed;
    forall j | s'.reader.done <= j < c.g.windowSize ensures SampleIsSettled(c, s', j) {
      assert SampleIsSettled(c, s, j);
    }
  }

  /** A settled sample is copied as it is in the stream. */
  lemma CopySettled(c: Config, s: State)
    requires c.Valid() && |s.buffer| == c.g.BufferSize() && Enabled(c, s, CopySample)
    requires Inv(c, s) && s.overflows == 0 && SampleIsSettled(c, s, s.reader.done)
    ensures Apply(c, s, CopySample).dest == s.dest + [c.stream(NextSample(c, s))]
  {
    SampleSignalled(c, s, s.reader.done);
    CellHolds(c, s, NextSample(c, s));
    c.g.CopyIndexInRing(|s.outputs|, s.reader.done);
  }

  ghost predicate RightAt(c: Config, states: seq<State>, i: nat, k: nat, completed: nat)
    requires c.Valid() && i < |states|
  {
    StaysRight(c, states[i], k, completed)
  }

  lemma SettledStep(c: Config, states: seq<State>, actions: seq<Action>, i: nat, k: nat, completed: nat)
    requires c.Valid() && Run(c, states, actions) && i < |actions|
    requires actions[i] !in {HardwareComplete, HardwareOverflow}
    ensures RightAt(c, states, i, k, completed) ==> RightAt(c, states, i + 1, k, completed)
  {
    if RightAt(c, states, i, k, completed) {
      RunInv(c, states, actions, i);
      StaysRightStep(c, states[i], actions[i], k, completed);
    }
  }

  lemma SettledStays(c: Config, states: seq<State>, actions: seq<Action>, from: nat, k: nat, completed: nat)
    requires c.Valid() && Run(c, states, actions) && from < |states|
    requires RightAt(c, states, from, k, completed) && Quiet(actions, from)
    ensures RightAt(c, states, |actions|, k, completed)
  {
    forall i | from <= i < |actions|
      ensures RightAt(c, states, i, k, completed) ==> RightAt(c, states, i + 1, k, completed)
    {
      SettledStep(c, states, actions, i, k, completed);
    }
    RightUpTo(c, states, from, |actions|, k, completed);
  }

  lemma {:induction false} RightUpTo(c: Config, states: seq<State>, from: nat, to: nat, k: nat, completed: nat)
    requires c.Valid() && from <= to < |states|
    requires RightAt(c, states, from, k, completed)
    requires forall i :: from <= i < to && RightAt(c, states, i, k, completed) ==>
        RightAt(c, states, i + 1, k, completed)
    ensures RightAt(c, states, to, k, completed)
  {
    if from < to {
      RightUpTo(c, states, from, to - 1, k, completed);
      assert RightAt(c, states, to - 1 + 1, k, completed);
    }
  }

  // ----- Otherwise some quiet extension reads something else

  lemma Chain(c: Config, states: seq<State>, actions: seq<Action>, states1: seq<State>, actions1: seq<Action>,
              states2: seq<State>, actions2: seq<Action>)
    requires c.Valid()
    requires QuietExtension(c, states, actions, states1, actions1)
    requires QuietExtension(c, states1, actions1, states2, actions2)
    ensures QuietExtension(c, states, actions, states2, actions2)
  {
    forall i | |actions| <= i < |actions2| ensures actions2[i] !in {HardwareComplete, HardwareOverflow} {
      if i < |actions1| {
        assert actions2[i] == actions1[i];
      }
    }
  }

  /** The cell that sample j of read k is copied from. */
  function Cell(c: Config, buffer: seq<int>, k: nat, j: nat): int
    requires c.Valid() && c.g.BufferSize() == |buffer| > 0
  {
    buffer[(k * c.g.strideSize + j) % c.g.BufferSize()]
  }

  lemma CopyOne(c: Config, states: seq<State>, actions: seq<Action>)
    returns (states': seq<State>, actions': seq<Action>)
    requires c.Valid() && Run(c, states, actions) && c.g.BufferSize() > 0
    requires Last(states).reader.Copying? && Last(states).reader.done < c.g.windowSize
    ensures QuietExtension(c, states, actions, states', actions')
    ensures var s := Last(states);
            var next := Cell(c, s.buffer, |s.outputs|, s.reader.done);
            Last(states') == s.(reader := Copying(s.reader.done + 1), dest := s.dest + [next])
    ensures CountersOk(c, Last(states'))
  {
    RunInv(c, states, actions, |actions|);
    c.g.CopyIndexInRing(|Last(states).outputs|, Last(states).reader.done);
    states', actions' := Extend(c, states, actions, CopySample);
    RunInv(c, states', actions', |actions'|);
  }

  lemma EndOne(c: Config, states: seq<State>, actions: seq<Action>)
    returns (states': seq<State>, actions': seq<Action>)
    requires c.Valid() && Run(c, states, actions) && Last(states).reader == Copying(c.g.windowSize)
    ensures QuietExtension(c, states, actions, states', actions')
    ensures Last(states').outputs == Last(states).outputs + [Last(states).dest]
  {
    states', actions' := Extend(c, states, actions, EndRead);
  }

  /** The read in progress in s has become an output that ends in what the buffer held. */
  ghost predicate ReadsRest(c: Config, s: State, outputs: seq<seq<int>>)
    requires c.Valid() && s.reader.Copying? && c.g.BufferSize() == |s.buffer| > 0
  {
    var k := |s.outputs|;
    && |outputs| == k + 1 && |outputs[k]| == c.g.windowSize && s.reader.done <= c.g.windowSize
    && outputs[k][..s.reader.done] == s.dest
    && forall j :: s.reader.done <= j < c.g.windowSize ==> outputs[k][j] == Cell(c, s.buffer, k, j)
  }

  lemma OneMoreRead(c: Config, s: State, s1: State, outputs: seq<seq<int>>)
    requires c.Valid() && s.reader.Copying? && |s.dest| == s.reader.done && c.g.BufferSize() == |s.buffer| > 0
    requires s1.buffer == s.buffer && s1.outputs == s.outputs && s1.reader == Copying(s.reader.done + 1)
    requires s1.dest == s.dest + [Cell(c, s.buffer, |s.outputs|, s.reader.done)]
    requires ReadsRest(c, s1, outputs)
    ensures ReadsRest(c, s, outputs)
  {
    TakeOneMore(outputs[|s.outputs|], s.dest, Cell(c, s.buffer, |s.outputs|, s.reader.done));
  }

  lemma TakeOneMore(output: seq<int>, dest: seq<int>, next: int)
    requires |dest| < |output| && output[..|dest| + 1] == dest + [next]
    ensures output[..|dest|] == dest && output[|dest|] == next
  {
    assert output[..|dest|] == output[..|dest| + 1][..|dest|];
    assert output[|dest|] == output[..|dest| + 1][|dest|];
  }

  /** The reader copies the rest of its window from the buffer as it is and ends the read. */
  lemma CopyToEnd(c: Config, states: seq<State>, actions: seq<Action>)
    returns (states': seq<State>, actions': seq<Action>)
    requires c.Valid() && c.g.BufferSize() > 0 && Run(c, states, actions) && Last(states).reader.Copying?
    requires CountersOk(c, Last(states))
    ensures QuietExtension(c, states, actions, states', actions')
    ensures ReadsRest(c, Last(states), Last(states').outputs)
    decreases c.g.windowSize - Last(states).reader.done
  {
    if Last(states).reader.done == c.g.windowSize {
      states', actions' := EndOne(c, states, actions);
    } else {
      var states1, actions1 := CopyOne(c, states, actions);
      states', actions' := CopyToEnd(c, states1, actions1);
      Chain(c, states, actions, states1, actions1, states', actions');
      OneMoreRead(c, Last(states), Last(states1), Last(states').outputs);
    }
  }

  /** The hardware spoils the cell of a position in the block under write. */
  lemma Spoil(c: Config, states: seq<State>, actions: seq<Action>, p: nat)
    returns (states': seq<State>, actions': seq<Action>)
    requires c.Valid() && Run(c, states, actions)
    requires UnderWrite(c, Last(states).completed, p)
    ensures c.g.BufferSize() > 0 && QuietExtension(c, states, actions, states', actions')
    ensures Last(states').(buffer := Last(states).buffer) == Last(states)
    ensures |Last(states').buffer| == c.g.BufferSize()
    ensures Last(states').buffer[p % c.g.BufferSize()] == c.stream(p) + 1
  {
    WritesCell(c, Last(states).completed, p);
    states', actions' := Extend(c, states, actions, HardwareWrite(p % c.g.blockSize, c.stream(p) + 1));
  }

  /** A spoilt sample is returned. */
  lemma SpoilSample(c: Config, states: seq<State>, actions: seq<Action>, j: nat)
    returns (states': seq<State>, actions': seq<Action>)
    requires c.Valid() && Run(c, states, actions) && Last(states).reader.Copying?
    requires CountersOk(c, Last(states))
    requires Last(states).reader.done <= j < c.g.windowSize
    requires UnderWrite(c, Last(states).completed, |Last(states).outputs| * c.g.strideSize + j)
    ensures QuietExtension(c, states, actions, states', actions')
    ensures var k := |Last(states).outputs|;
            |Last(states').outputs| == k + 1 && Last(states').outputs[k] != c.Window(k)
  {
    var k := |Last(states).outputs|;
    var states1, actions1 := Spoil(c, states, actions, k * c.g.strideSize + j);
    RunInv(c, states1, actions1, |actions1|);
    states', actions' := CopyToEnd(c, states1, actions1);
    Chain(c, states, actions, states1, actions1, states', actions');
    assert Last(states').outputs[k][j] == Cell(c, Last(states1).buffer, k, j) == c.stream(k * c.g.strideSize + j) + 1;
    assert c.Window(k)[j] == c.stream(k * c.g.strideSize + j);
  }

  /** A reader whose rest is not settled can be made to return something else. */
  lemma UnsettledCanDiffer(c: Config, states: seq<State>, actions: seq<Action>)
    returns (states': seq<State>, actions': seq<Action>)
    requires c.Valid() && Run(c, states, actions)
    requires Last(states).reader.Copying? && Last(states).overflows == 0
    requires CountersOk(c, Last(states)) && !RestIsSettled(c, Last(states))
    ensures QuietExtension(c, states, actions, states', actions')
    ensures var k := |Last(states).outputs|;
            |Last(states').outputs| == k + 1 && Last(states').outputs[k] != c.Window(k)
  {
    var s := Last(states);
    var k := |s.outputs|;
    c.g.StrideFacts();
    if s.dest != c.Window(k)[..s.reader.done] {
      states', actions' := CopyToEnd(c, states, actions);
    } else {
      var j :| s.reader.done <= j < c.g.windowSize && !SampleIsSettled(c, s, j);
      if UnderWrite(c, s.completed, k * c.g.strideSize + j) {
        states', actions' := SpoilSample(c, states, actions, j);
      } else {
        states', actions' := CopyToEnd(c, states, actions);
        RunInv(c, states, actions, |actions|);
        SampleSignalled(c, s, j);
        CellHolds(c, s, k * c.g.strideSize + j);
        assert Last(states').outputs[k][j] == Cell(c, s.buffer, k, j) != c.Window(k)[j];
      }
    }
  }

  /** A copying reader is safe until the next block is complete exactly when what it has is
      right and each sample it still needs is settled: the sample's block is not the one
      under write, and the last lap of the hardware left the same sample there. */
  lemma SafeExactlyWhenSettled(c: Config, states: seq<State>, actions: seq<Action>)
    requires c.Valid() && Run(c, states, actions)
    requires Last(states).reader.Copying? && Last(states).overflows == 0
    ensures CountersOk(c, Last(states))
    ensures ReadIsSafe(c, states, actions) <==> RestIsSettled(c, Last(states))
  {
    RunInv(c, states, actions, |actions|);
    if RestIsSettled(c, Last(states)) {
      forall states', actions' | QuietExtension(c, states, actions, states', actions')
        ensures StaysRight(c, Last(states'), |Last(states).outputs|, Last(states).completed)
      {
        assert states'[|actions|] == Last(states);
        SettledStays(c, states', actions', |actions|, |Last(states).outputs|, Last(states).completed);
      }
    } else {
      var states', actions' := UnsettledCanDiffer(c, states, actions);
    }
  }

  /** A reader that the hardware has not lapped is settled. */
  lemma UnlappedRestIsSettled(c: Config, s: State)
    requires c.Valid() && s.reader.Copying? && s.overflows == 0 && CountersOk(c, s)
    requires s.dest == c.Window(|s.outputs|)[..s.reader.done]
    requires Unlapped(c, s)
    ensures RestIsSettled(c, s)
  {
    forall j | s.reader.done <= j < c.g.windowSize ensures SampleIsSettled(c, s, j) {
      var p := |s.outputs| * c.g.strideSize + j;
      SampleSignalled(c, s, j);
      DivMonotone(NextSample(c, s), p, c.g.blockSize);
      UnlappedIsSettled(c, s.completed, p);
    }
  }

  /** When the hardware reaches the block of the next sample, that sample is not settled. */
  lemma ReachedIsUnderWrite(c: Config, completed: nat, p: nat)
    requires c.Valid() && completed == p / c.g.blockSize + c.g.blockCount
    ensures UnderWrite(c, completed, p)
  {
    DivModUnique(completed - p / c.g.blockSize, c.g.blockCount, 1, 0);
  }

  /** As long as the hardware has not passed the block of the next sample, the condition is
      that it has not reached it. */
  lemma SafeExactlyWhenUnlapped(c: Config, states: seq<State>, actions: seq<Action>)
    requires c.Valid() && Run(c, states, actions)
    requires Last(states).reader.Copying? && Last(states).overflows == 0
    requires Last(states).reader.done < c.g.windowSize
    requires Last(states).dest == c.Window(|Last(states).outputs|)[..Last(states).reader.done]
    requires Last(states).completed <= NextSample(c, Last(states)) / c.g.blockSize + c.g.blockCount
    ensures ReadIsSafe(c, states, actions) <==> Unlapped(c, Last(states))
  {
    var s := Last(states);
    SafeExactlyWhenSettled(c, states, actions);
    if Unlapped(c, s) {
      UnlappedRestIsSettled(c, s);
    } else {
      ReachedIsUnderWrite(c, s.completed, NextSample(c, s));
      assert !SampleIsSettled(c, s, s.reader.done);
    }
  }

  // ----- How many signals a waiting reader needs

  predicate Waiting(s: State) {
    s.reader in {CheckFirst, CheckLast, Taking}
  }

  /** Nothing to do for the reader: it sleeps on the empty semaphore. */
  predicate ReaderAsleep(s: State) {
    s.reader == Taking && !s.semaphore
  }

  /** A read that waits through a stretch of a run, and runs between signals: each update of
      the block under write finds it asleep. */
  ghost predicate WaitsThrough(states: seq<State>, actions: seq<Action>, from: nat, to: nat)
    requires |states| == |actions| + 1
  {
    && from <= to < |states|
    && (forall i :: from <= i <= to ==> Waiting(states[i]))
    && (forall i :: from <= i < to && actions[i] == UpdateBlock ==> ReaderAsleep(states[i]))
  }

  /** One step of a waiting read: the block under write moves on only past a blocking value. */
  ghost predicate WaitStep(c: Config, s: State, s': State)
    requires c.Valid()
  {
    && s'.outputs == s.outputs && s'.currentStride == s.currentStride
    && s.signalled <= s'.signalled <= s.signalled + 1
    && (s'.signalled > s.signalled ==> c.g.Blocked(s.currentStride, s.signalled % c.g.blockCount))
  }

  lemma WaitingStep(c: Config, s: State, a: Action)
    requires c.Valid() && |s.buffer| == c.g.BufferSize() && Enabled(c, s, a)
    requires CountersOk(c, s) && SemaphoreOk(c, s)
    requires Waiting(s) && Waiting(Apply(c, s, a)) && (a == UpdateBlock ==> ReaderAsleep(s))
    ensures WaitStep(c, s, Apply(c, s, a))
  {
  }

  lemma OneWait(c: Config, states: seq<State>, actions: seq<Action>, from: nat, to: nat, i: nat)
    requires c.Valid() && Run(c, states, actions) && WaitsThrough(states, actions, from, to) && from <= i < to
    ensures WaitStep(c, states[i], states[i + 1])
  {
    RunInv(c, states, actions, i);
    assert Waiting(states[i]) && Waiting(states[i + 1]);
    WaitingStep(c, states[i], actions[i]);
  }

  lemma RunWaits(c: Config, states: seq<State>, actions: seq<Action>, from: nat, to: nat)
    requires c.Valid() && Run(c, states, actions) && WaitsThrough(states, actions, from, to)
    ensures forall i :: from <= i < to ==> WaitStep(c, states[i], states[i + 1])
  {
    forall i | from <= i < to ensures WaitStep(c, states[i], states[i + 1]) {
      OneWait(c, states, actions, from, to, i);
    }
  }

  lemma {:induction false} WaitingKeeps(c: Config, states: seq<State>, from: nat, to: nat)
    requires c.Valid() && from <= to < |states|
    requires forall i :: from <= i < to ==> WaitStep(c, states[i], states[i + 1])
    ensures states[from].outputs == states[to].outputs
    ensures states[from].currentStride == states[to].currentStride
    ensures states[from].signalled <= states[to].signalled
  {
    if from < to {
      WaitingKeeps(c, states, from, to - 1);
      assert WaitStep(c, states[to - 1], states[to - 1 + 1]);
    }
  }

  /** Every value of the block under write that such a stretch has left blocks the read. */
  lemma {:induction false} PassedValueBlocks(c: Config, states: seq<State>, from: nat, to: nat, value: nat)
    requires c.Valid() && from <= to < |states|
    requires forall i :: from <= i < to ==> WaitStep(c, states[i], states[i + 1])
    requires states[from].signalled <= value < states[to].signalled
    ensures c.g.Blocked(states[from].currentStride, value % c.g.blockCount)
  {
    assert WaitStep(c, states[to - 1], states[to - 1 + 1]);
    if value < states[to - 1].signalled {
      PassedValueBlocks(c, states, from, to - 1, value);
    } else {
      WaitingKeeps(c, states, from, to - 1);
    }
  }

  /** What the reader does next by itself. */
  function ReaderStep(s: State): Action
    requires Waiting(s)
  {
    if s.reader == CheckFirst then SampleFirst else if s.reader == CheckLast then SampleLast else TakeSemaphore
  }

  /** The reader takes own steps, as many as there are until it copies. */
  ghost function ReaderRuns(c: Config, s: State, steps: nat): (s': State)
    requires c.Valid() && |s.buffer| == c.g.BufferSize()
    ensures |s'.buffer| == c.g.BufferSize()
    decreases steps
  {
    if steps == 0 || !Waiting(s) || ReaderAsleep(s) then s
    else ReaderRuns(c, Apply(c, s, ReaderStep(s)), steps - 1)
  }

  /** A reader whose window is not blocked starts to copy with its next sample or the one
      after, or with the one after a take. */
  lemma FromCheckLast(c: Config, s: State)
    requires c.Valid() && |s.buffer| == c.g.BufferSize() && s.reader == CheckLast
    requires !c.g.Blocked(s.currentStride, s.blockUnderWrite)
    ensures forall steps: nat :: steps >= 1 ==> ReaderRuns(c, s, steps).reader == Copying(0)
  {
    var s1 := Apply(c, s, SampleLast);
    assert ReaderStep(s) == SampleLast && s1.reader == Copying(0);
    forall steps: nat | steps >= 1 ensures ReaderRuns(c, s, steps).reader == Copying(0) {
      assert ReaderRuns(c, s1, steps - 1) == s1;
    }
  }

  lemma FromCheckFirst(c: Config, s: State)
    requires c.Valid() && |s.buffer| == c.g.BufferSize() && s.reader == CheckFirst
    requires !c.g.Blocked(s.currentStride, s.blockUnderWrite)
    ensures forall steps: nat :: steps >= 2 ==> ReaderRuns(c, s, steps).reader == Copying(0)
  {
    var s1 := Apply(c, s, SampleFirst);
    assert ReaderStep(s) == SampleFirst && s1.reader == CheckLast;
    FromCheckLast(c, s1);
  }

  lemma UnblockedReaderCopies(c: Config, s: State)
    requires c.Valid() && |s.buffer| == c.g.BufferSize() && Waiting(s) && !ReaderAsleep(s)
    requires !c.g.Blocked(s.currentStride, s.blockUnderWrite)
    ensures ReaderRuns(c, s, 3).reader == Copying(0)
  {
    if s.reader == CheckLast {
      FromCheckLast(c, s);
    } else if s.reader == CheckFirst {
      FromCheckFirst(c, s);
    } else {
      assert ReaderStep(s) == TakeSemaphore;
      FromCheckFirst(c, Apply(c, s, TakeSemaphore));
    }
  }

  /** The other way round, a reader whose window is blocked goes to sleep: a sample that finds
      the block under write is followed by a take, never by another sample. */
  lemma BlockedReaderSleeps(c: Config, s: State)
    requires c.Valid() && |s.buffer| == c.g.BufferSize()
    requires s.reader in {CheckFirst, Taking} && c.g.Blocked(s.currentStride, s.blockUnderWrite)
    ensures ReaderAsleep(ReaderRuns(c, s, 6))
  {
    if s.reader == CheckFirst {
      BlockedFromCheckFirst(c, s, 6);
    } else if s.semaphore {
      assert ReaderStep(s) == TakeSemaphore;
      BlockedFromCheckFirst(c, Apply(c, s, TakeSemaphore), 5);
    }
  }

  lemma BlockedFromCheckFirst(c: Config, s: State, steps: nat)
    requires c.Valid() && |s.buffer| == c.g.BufferSize() && s.reader == CheckFirst
    requires c.g.Blocked(s.currentStride, s.blockUnderWrite) && steps >= if s.semaphore then 5 else 2
    ensures ReaderAsleep(ReaderRuns(c, s, steps))
    decreases s.semaphore
  {
    var s1 := Apply(c, s, SampleFirst);
    assert ReaderStep(s) == SampleFirst;
    if s1.reader == Taking {
      FromTaking(c, s1, steps - 1);
    } else {
      assert ReaderStep(s1) == SampleLast;
      FromTaking(c, Apply(c, s1, SampleLast), steps - 2);
    }
  }

  lemma FromTaking(c: Config, s: State, steps: nat)
    requires c.Valid() && |s.buffer| == c.g.BufferSize() && s.reader == Taking
    requires c.g.Blocked(s.currentStride, s.blockUnderWrite) && steps >= if s.semaphore then 3 else 0
    ensures ReaderAsleep(ReaderRuns(c, s, steps))
    decreases s.semaphore, 0
  {
    if s.semaphore {
      assert ReaderStep(s) == TakeSemaphore;
      BlockedFromCheckFirst(c, Apply(c, s, TakeSemaphore), steps - 1);
    }
  }

  /** Three values in a row cannot all block. */
  lemma ThirdValuePasses(g: Geometry, k: nat, value: nat)
    requires g.Valid() && g.blockCount >= 3 && g.StrideCount() > 0
    requires g.Blocked(k % g.StrideCount(), value % g.blockCount)
    requires g.Blocked(k % g.StrideCount(), (value + 1) % g.blockCount)
    ensures !g.Blocked(k % g.StrideCount(), (value + 2) % g.blockCount)
  {
    GuardClearsWithinTwoSignals(g, k, value);
  }

  /** With three blocks or more, a reader that runs between signals gets at most two of them
      while it waits, and after the second it starts to copy by its own next three steps. */
  lemma WaitsForTwoSignalsAtMost(c: Config, states: seq<State>, actions: seq<Action>, from: nat, to: nat)
    requires c.Valid() && c.g.blockCount >= 3
    requires Run(c, states, actions) && WaitsThrough(states, actions, from, to)
    ensures states[to].signalled <= states[from].signalled + 2
    ensures states[to].signalled == states[from].signalled + 2 && states[to].callback != Giving ==>
              !ReaderAsleep(states[to]) && ReaderRuns(c, states[to], 3).reader == Copying(0)
  {
    var s, value := states[to], states[from].signalled;
    RunWaits(c, states, actions, from, to);
    WaitingKeeps(c, states, from, to);
    RunInv(c, states, actions, to);
    c.g.StrideFacts();
    if s.signalled >= value + 2 {
      PassedValueBlocks(c, states, from, to, value);
      PassedValueBlocks(c, states, from, to, value + 1);
      ThirdValuePasses(c.g, |s.outputs|, value);
      if s.signalled > value + 2 {
        PassedValueBlocks(c, states, from, to, value + 2);
      } else if s.callback != Giving {
        UnblockedReaderCopies(c, s);
      }
    }
  }

  // ----- Nothing else waits

  /** The semaphore is what the last give or take has made of it; at first it is given. */
  function Given(actions: seq<Action>): bool {
    if actions == [] then true
    else
      match actions[|actions| - 1]
      case GiveSemaphore => true
      case TakeSemaphore => false
      case _ => Given(actions[..|actions| - 1])
  }

  lemma {:induction false} SemaphoreIsBinary(c: Config, states: seq<State>, actions: seq<Action>, i: nat)
    requires c.Valid() && Run(c, states, actions) && i < |states|
    ensures states[i].semaphore == Given(actions[..i])
  {
    if i > 0 {
      SemaphoreIsBinary(c, states, actions, i - 1);
      SemaphoreMoves(c, states[i - 1], actions[i - 1]);
      assert actions[..i][..i - 1] == actions[..i - 1];
    }
  }

  lemma SemaphoreMoves(c: Config, s: State, a: Action)
    requires c.Valid() && |s.buffer| == c.g.BufferSize() && Enabled(c, s, a)
    ensures Apply(c, s, a).semaphore == (a == GiveSemaphore || (a != TakeSemaphore && s.semaphore))
  {
  }

  /** In every state of every run the reader can take a step of its own unless it sleeps on the
      empty semaphore, and the callback task can unless it sleeps with nothing notified or has
      gone wrong. */
  lemma NothingElseWaits(c: Config, states: seq<State>, actions: seq<Action>, i: nat)
    requires c.Valid() && Run(c, states, actions) && i < |states|
    ensures var s := states[i];
            && (!ReaderAsleep(s) ==>
                  exists a :: a in {BeginRead, SampleFirst, SampleLast, TakeSemaphore, CopySample, EndRead}
                              && Enabled(c, s, a))
            && (s.callback != Faulted && !(s.callback == Asleep && s.notifications == 0) ==>
                  exists a :: a in {TakeNotification, TestEvent, UpdateBlock, GiveSemaphore} && Enabled(c, s, a))
  {
    var s := states[i];
    RunInv(c, states, actions, i);
    if s.reader.Copying? && s.reader.done < c.g.windowSize {
      c.g.CopyIndexInRing(|s.outputs|, s.reader.done);
      assert Enabled(c, s, CopySample);
    }
    var own := match s.reader
      case Outside => BeginRead
      case CheckFirst => SampleFirst
      case CheckLast => SampleLast
      case Taking => TakeSemaphore
      case Copying(done) => if done < c.g.windowSize then CopySample else EndRead;
    assert ReaderAsleep(s) || Enabled(c, s, own);
    var other := match s.callback
      case Asleep => TakeNotification
      case Testing => TestEvent
      case Calling => UpdateBlock
      case _ => GiveSemaphore;
    assert s.callback == Faulted || (s.callback == Asleep && s.notifications == 0) || Enabled(c, s, other);
  }
}
