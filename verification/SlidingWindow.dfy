/** The ring of audio blocks between the streaming interface, which fills one block
    at a time, and the feature extractor, which reads overlapping windows from it. */
module SlidingWindow {
  import opened Arithmetic

  /** The sizes fixed when the window is constructed. */
  datatype Geometry = Geometry(blockSize: nat, blockCount: nat, windowSize: nat, strideSize: nat) {

    /** What the constructor asserts; a zero stride or block count would divide by zero. */
    predicate Valid() {
      && 0 < strideSize < blockSize
      && strideSize < windowSize < blockSize
      && blockSize % strideSize == 0
      && windowSize % strideSize == 0
      && 0 < blockCount
    }

    function BufferSize(): nat {
      blockSize * blockCount
    }

    function StridesPerBlock(): nat
      requires Valid()
    {
      blockSize / strideSize
    }

    function StrideCount(): nat
      requires Valid()
    {
      BufferSize() / strideSize
    }

    /** The block holding the first sample of the window at a stride of the ring. */
    function FirstBlock(stride: nat): nat
      requires Valid()
    {
      assert blockSize / strideSize > 0 by { StrideFacts(); }
      stride / StridesPerBlock()
    }

    /** The block holding the last sample of the window at a stride of the ring. */
    function LastBlock(stride: nat): nat
      requires Valid()
    {
      ((stride * strideSize + windowSize - 1) / blockSize) % blockCount
    }

    /** The loop condition of the reader, evaluated on one value. */
    predicate Blocked(stride: nat, blockUnderWrite: nat)
      requires Valid()
    {
      FirstBlock(stride) == blockUnderWrite || LastBlock(stride) == blockUnderWrite
    }

    /** Where the j-th sample of a window is read from: a window that ends in an earlier
        block than it starts in continues at the beginning of the buffer. */
    function CopyIndex(stride: nat, j: nat): int
      requires Valid()
    {
      var begin := stride * strideSize;
      if LastBlock(stride) < FirstBlock(stride) && begin + j >= BufferSize()
      then begin + j - BufferSize()
      else begin + j
    }

    /** First and last block of the k-th window, counted from the start of the stream. */
    function StartBlock(k: nat): nat
      requires Valid()
    {
      (k * strideSize) / blockSize
    }

    function EndBlock(k: nat): nat
      requires Valid()
    {
      (k * strideSize + windowSize - 1) / blockSize
    }

    lemma StrideFacts()
      requires Valid()
      ensures StridesPerBlock() > 0 && StrideCount() > 0
      ensures blockSize == StridesPerBlock() * strideSize
      ensures StrideCount() == blockCount * StridesPerBlock()
      ensures StrideCount() * strideSize == BufferSize()
      ensures BufferSize() >= blockSize && blockCount * blockSize == BufferSize()
    {
      var perBlock := StridesPerBlock();
      assert blockSize == perBlock * strideSize;
      assert perBlock > 0;
      assert BufferSize() == (blockCount * perBlock) * strideSize by {
        assert (blockCount * perBlock) * strideSize == blockCount * (perBlock * strideSize);
      }
      DivModUnique(BufferSize(), strideSize, blockCount * perBlock, 0);
      MultipleSize(blockCount, blockSize);
      MultipleSize(blockCount, perBlock);
    }

    /** The reader's stride in the ring against the absolute window number k. */
    lemma {:induction false} StrideInRing(k: nat)
      requires Valid()
      ensures StrideCount() > 0 && BufferSize() > 0
      ensures (k % StrideCount()) * strideSize == (k * strideSize) % BufferSize()
      ensures FirstBlock(k % StrideCount()) == StartBlock(k) % blockCount
      ensures LastBlock(k % StrideCount()) == EndBlock(k) % blockCount
      ensures StartBlock(k) <= EndBlock(k) <= StartBlock(k) + 1
    {
      StrideFacts();
      ScaleMod(k, StrideCount(), strideSize);
      RowInRing(k, blockCount, StridesPerBlock());
      DivCancel(k, StridesPerBlock(), strideSize);
      RowAfter(k * strideSize, windowSize - 1, blockCount, blockSize);
      NextRowAtMost(k * strideSize, windowSize - 1, blockSize);
    }

    /** With at least two blocks, the copy detects a wrapped window exactly. */
    lemma WrapDetected(stride: nat)
      requires Valid() && blockCount >= 2
      requires stride < StrideCount()
      ensures stride * strideSize < BufferSize()
      ensures LastBlock(stride) < FirstBlock(stride)
         <==> stride * strideSize + windowSize > BufferSize()
    {
      StrideFacts();
      BeginInBuffer(stride);
      FirstBlockAt(stride);
      WrapByRows(stride * strideSize, windowSize - 1, blockCount, blockSize);
    }

    lemma BeginInBuffer(stride: nat)
      requires Valid() && stride < StrideCount()
      ensures stride * strideSize < BufferSize()
    {
      StrideFacts();
      MulMonotone(stride + 1, StrideCount(), strideSize);
      Distribute(stride, 1, strideSize);
    }

    lemma FirstBlockAt(stride: nat)
      requires Valid()
      ensures FirstBlock(stride) == (stride * strideSize) / blockSize
    {
      StrideFacts();
      DivCancel(stride, StridesPerBlock(), strideSize);
    }

    /** The copied cells are the window's own positions around the ring. */
    lemma {:induction false} CopyIndexInRing(k: nat, j: nat)
      requires Valid() && blockCount >= 2 && j < windowSize
      ensures StrideCount() > 0 && BufferSize() > 0
      ensures CopyIndex(k % StrideCount(), j) == (k * strideSize + j) % BufferSize()
      ensures 0 <= CopyIndex(k % StrideCount(), j) < BufferSize()
    {
      StrideFacts();
      StrideInRing(k);
      var stride := k % StrideCount();
      WrapDetected(stride);
      ModAfter(k * strideSize, j, BufferSize());
    }
  }

  /** When the guard can be left at all: three blocks always leave one that is neither the
      first nor the last of the window, two blocks only when the window is in one block. */
  lemma GuardCanPass(g: Geometry, k: nat)
    requires g.Valid()
    ensures g.StrideCount() > 0
    ensures (exists w: nat :: w < g.blockCount && !g.Blocked(k % g.StrideCount(), w))
       <==> g.blockCount >= 3 || (g.blockCount == 2 && g.StartBlock(k) == g.EndBlock(k))
  {
    g.StrideFacts();
    g.StrideInRing(k);
    var stride, n := k % g.StrideCount(), g.blockCount;
    var first, last := g.FirstBlock(stride), g.LastBlock(stride);
    assert first < n && last < n;
    if n >= 3 {
      var w := if first != 0 && last != 0 then 0 else if first != 1 && last != 1 then 1 else 2;
      assert !g.Blocked(stride, w);
    } else if n == 2 && g.StartBlock(k) == g.EndBlock(k) {
      assert !g.Blocked(stride, 1 - first);
    } else if n == 2 {
      assert g.EndBlock(k) == g.StartBlock(k) + 1;
      AddMultiple(g.StartBlock(k), 1, 1);
      assert first != last by { DistinctInRing(g.StartBlock(k), g.EndBlock(k), 2); }
    }
  }

  /** With three blocks or more, whatever block is under write now, two more signals
      suffice for an evaluation of the guard to let the reader through. */
  lemma GuardClearsWithinTwoSignals(g: Geometry, k: nat, signalled: nat)
    requires g.Valid() && g.blockCount >= 3
    ensures g.StrideCount() > 0
    ensures !g.Blocked(k % g.StrideCount(), signalled % g.blockCount)
         || !g.Blocked(k % g.StrideCount(), (signalled + 1) % g.blockCount)
         || !g.Blocked(k % g.StrideCount(), (signalled + 2) % g.blockCount)
  {
    g.StrideFacts();
    var stride, n := k % g.StrideCount(), g.blockCount;
    DistinctInRing(signalled, signalled + 1, n);
    DistinctInRing(signalled, signalled + 2, n);
    DistinctInRing(signalled + 1, signalled + 2, n);
  }

  /** The sliding window object: the shared buffer and the two indices kept over it. */
  class CircularSlidingWindow {
    const g: Geometry
    const buffer: array<int>
    var blockUnderWrite: nat
    var currentStride: nat
    var semaphore: bool

    ghost predicate Valid()
      reads this
    {
      && g.Valid()
      && buffer.Length == g.BufferSize()
      && blockUnderWrite < g.blockCount
      && currentStride < g.StrideCount()
    }

    constructor (buffer: array<int>, g: Geometry)
      requires g.Valid() && buffer.Length == g.BufferSize()
      ensures Valid() && this.g == g && this.buffer == buffer
      ensures blockUnderWrite == 0 && currentStride == 0 && semaphore
    {
      this.g, this.buffer := g, buffer;
      blockUnderWrite, currentStride := 0, 0;
      semaphore := true;
      new;
      g.StrideFacts();
    }

    /** Callback for a completed block: the next block is under write, and a waiting
        reader is woken. */
    method SignalBlockWritten()
      requires Valid()
      modifies this`blockUnderWrite, this`semaphore
      ensures Valid() && semaphore
      ensures blockUnderWrite == (old(blockUnderWrite) + 1) % g.blockCount
    {
      blockUnderWrite := (blockUnderWrite + 1) % g.blockCount;
      semaphore := true;
    }

    /** The part of the read that follows the wait: copy the window, move one stride on. With
        a single block the wait would have no end. */
    method CopyAndAdvance(dest: array<int>)
      requires Valid() && g.blockCount >= 2 && dest != buffer && g.windowSize <= dest.Length
      modifies dest, this`currentStride
      ensures Valid()
      ensures forall j :: 0 <= j < g.windowSize ==>
                dest[j] == buffer[(old(currentStride) * g.strideSize + j) % buffer.Length]
      ensures forall j :: g.windowSize <= j < dest.Length ==> dest[j] == old(dest[j])
      ensures currentStride == (old(currentStride) + 1) % g.StrideCount()
    {
      g.StrideFacts();
      g.WrapDetected(currentStride);
      var firstBlock, lastBlock := g.FirstBlock(currentStride), g.LastBlock(currentStride);
      var begin := currentStride * g.strideSize;
      if lastBlock < firstBlock {
        var offset := buffer.Length - begin;
        CopyRange(buffer, begin, buffer.Length, dest, 0);
        CopyRange(buffer, 0, g.windowSize - offset, dest, offset);
      } else {
        CopyRange(buffer, begin, begin + g.windowSize, dest, 0);
      }
      forall j | 0 <= j < g.windowSize
        ensures dest[j] == buffer[(begin + j) % buffer.Length]
      {
        ModInRing(begin + j, buffer.Length);
      }
      currentStride := currentStride + 1;
      currentStride := currentStride % g.StrideCount();
    }
  }

  /** Copy the cells from..to of one buffer into another, starting at `at`. */
  method CopyRange(source: array<int>, from: nat, to: nat, dest: array<int>, at: nat)
    requires source != dest && from <= to <= source.Length && at + (to - from) <= dest.Length
    modifies dest
    ensures forall j :: at <= j < at + (to - from) ==> dest[j] == source[from + (j - at)]
    ensures forall j :: 0 <= j < dest.Length && !(at <= j < at + (to - from)) ==> dest[j] == old(dest[j])
  {
    for i := from to to
      invariant forall j :: at <= j < at + (i - from) ==> dest[j] == source[from + (j - at)]
      invariant forall j :: 0 <= j < dest.Length && !(at <= j < at + (i - from)) ==> dest[j] == old(dest[j])
    {
      dest[at + (i - from)] := source[i];
    }
  }
}
