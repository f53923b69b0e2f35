/** The feature cache of the inference loop: the vectors of the half window that the next
    inference shares with this one are moved out of the cache and the cache is refilled
    while the loop runs. */
module FeatureCache {
  import opened Arithmetic
  import opened AudioProtocol

  // ----- How many passes an inference makes

  /** Samples of one inference, from the tensor rows and the frame sizes. */
  function AudioWindowSize(rows: nat, frameLength: nat, frameStride: nat): int {
    rows * frameStride + (frameLength - frameStride)
  }

  /** Passes of the feature loop for one inference. */
  function Passes(audioWindow: nat, frameStride: nat): nat
    requires frameStride > 0
  {
    audioWindow / frameStride
  }

  /** Half the window, cut down to a multiple of the frame stride. */
  function AudioStride(audioWindow: nat, frameStride: nat): nat
    requires frameStride > 0
  {
    var half := audioWindow / 2;
    if half % frameStride != 0 then half - half % frameStride else half
  }

  /** Vectors in one audio stride: the overlap of two windows and the size of the cache. */
  function StrideVectors(audioWindow: nat, frameStride: nat): nat
    requires frameStride > 0
  {
    AudioStride(audioWindow, frameStride) / frameStride
  }

  /** Twice the vectors of a stride are the passes, or one fewer. */
  lemma PassesPerStride(audioWindow: nat, frameStride: nat)
    requires frameStride > 0
    ensures StrideVectors(audioWindow, frameStride) == Passes(audioWindow, frameStride) / 2
  {
    var half := audioWindow / 2;
    var q, r := half / frameStride, half % frameStride;
    assert half - r == q * frameStride;
    DivModUnique(q * frameStride, frameStride, q, 0);
    DivDiv(audioWindow, 2, frameStride);
    DivDiv(audioWindow, frameStride, 2);
  }

  /** The audio stride is the greatest multiple of the frame stride within half the window. */
  lemma StrideIsWhole(audioWindow: nat, frameStride: nat)
    requires frameStride > 0
    ensures var stride := AudioStride(audioWindow, frameStride);
            && stride % frameStride == 0
            && stride <= audioWindow / 2 < stride + frameStride
            && stride == StrideVectors(audioWindow, frameStride) * frameStride
  {
    var half := audioWindow / 2;
    var q := half / frameStride;
    DivModUnique(q * frameStride, frameStride, q, 0);
  }

  /** Every pass past the overlap stores into an existing cache slot exactly when the number
      of passes is even. */
  lemma CacheIndicesInBounds(audioWindow: nat, frameStride: nat)
    requires frameStride > 0
    ensures var passes, vectors := Passes(audioWindow, frameStride), StrideVectors(audioWindow, frameStride);
            (forall index :: vectors <= index < passes ==> SlotExists(index, vectors)) <==> passes % 2 == 0
  {
    PassesPerStride(audioWindow, frameStride);
    var vectors := StrideVectors(audioWindow, frameStride);
    assert !SlotExists(2 * vectors, vectors);
  }

  /** The slot that pass `index` stores into is one of the cache's. */
  predicate SlotExists(index: int, vectors: nat) {
    0 <= index - vectors < vectors
  }

  /** The loop fills the tensor's rows, and then one row for each whole stride by which a
      frame is longer than its stride: with frames of two strides, one row too many. */
  lemma RowsWritten(rows: nat, frameLength: nat, frameStride: nat)
    requires frameStride > 0 && 0 <= AudioWindowSize(rows, frameLength, frameStride)
    ensures var passes := Passes(AudioWindowSize(rows, frameLength, frameStride), frameStride);
            && passes == rows + (frameLength - frameStride) / frameStride
            && (passes <= rows <==> frameLength < 2 * frameStride)
  {
    var extra := frameLength - frameStride;
    AddMultiple(extra, rows, frameStride);
    var k := extra / frameStride;
    assert extra == k * frameStride + extra % frameStride;
    MultipleSize(k, frameStride);
  }

  // ----- The cached calculation

  /** Row i of a tensor of `cols` columns. */
  function Row(tensor: seq<int>, i: nat, cols: nat): seq<int>
    requires (i + 1) * cols <= |tensor|
  {
    assert i * cols <= (i + 1) * cols <= |tensor|;
    tensor[i * cols..(i + 1) * cols]
  }

  /** The tensor after `features` is copied in as row `index`. */
  function WithRow(tensor: seq<int>, index: nat, features: seq<int>): (t: seq<int>)
    requires (index + 1) * |features| <= |tensor|
    ensures |t| == |tensor|
    ensures Row(t, index, |features|) == features
  {
    assert index * |features| + |features| == (index + 1) * |features|;
    tensor[..index * |features|] + features + tensor[index * |features| + |features|..]
  }

  lemma OtherSlice(t: seq<int>, start: nat, part: seq<int>, low: nat, high: nat)
    requires start + |part| <= |t| && low <= high <= |t|
    requires high <= start || start + |part| <= low
    ensures (t[..start] + part + t[start + |part|..])[low..high] == t[low..high]
  {
  }

  lemma OtherRows(tensor: seq<int>, index: nat, features: seq<int>, i: nat)
    requires (index + 1) * |features| <= |tensor| && (i + 1) * |features| <= |tensor|
    requires i != index
    ensures Row(WithRow(tensor, index, features), i, |features|) == Row(tensor, i, |features|)
  {
    var cols := |features|;
    Distribute(index, 1, cols);
    Distribute(i, 1, cols);
    if i < index {
      MulMonotone(i + 1, index, cols);
    } else {
      MulMonotone(index + 1, i, cols);
    }
    OtherSlice(tensor, index * cols, features, i * cols, (i + 1) * cols);
  }

  /** The feature function with its cache. A moved-from vector keeps an unspecified value,
      here any `residue`; a default-constructed one is empty. */
  class FeatureCalculator {
    const compute: seq<int> -> seq<int>
    const residue: seq<int>
    const tensor: array<int>
    var cache: seq<seq<int>>

    constructor (tensor: array<int>, cacheSize: nat, compute: seq<int> -> seq<int>, residue: seq<int>)
      ensures this.tensor == tensor && this.compute == compute && this.residue == residue
      ensures cache == seq(cacheSize, _ => [])
    {
      this.tensor, this.compute, this.residue := tensor, compute, residue;
      cache := seq(cacheSize, _ => []);
    }

    /** The vector a pass works on. */
    function Features(window: seq<int>, index: nat, useCache: bool): seq<int>
      reads this
    {
      if useCache && index < |cache| then cache[index] else compute(window)
    }

    method Calculate(window: seq<int>, index: nat, useCache: bool, overlap: nat)
      requires index < overlap + |cache|
      requires (index + 1) * |Features(window, index, useCache)| <= tensor.Length
      modifies this`cache, tensor
      ensures tensor[..] == WithRow(old(tensor[..]), index, old(Features(window, index, useCache)))
      ensures |cache| == |old(cache)|
      ensures forall j :: 0 <= j < |cache| ==>
                cache[j] == if j == index - overlap then old(Features(window, index, useCache))
                            else if useCache && j == index then residue
                            else old(cache[j])
    {
      var features;
      if useCache && index < |cache| {
        features := cache[index];
        cache := cache[index := residue];
      } else {
        features := compute(window);
      }
      assert index * |features| + |features| == (index + 1) * |features|;
      CopyIn(tensor, index * |features|, features);
      if index >= overlap {
        cache := cache[index - overlap := features];
      }
    }
  }

  /** Copy `data` into the buffer from position `start`. */
  method CopyIn(buffer: array<int>, start: nat, data: seq<int>)
    requires start + |data| <= buffer.Length
    modifies buffer
    ensures buffer[..] == old(buffer[..start]) + data + old(buffer[start + |data|..])
  {
    for i := 0 to |data|
      invariant forall k :: 0 <= k < buffer.Length ==>
                  buffer[k] == if start <= k < start + i then data[k - start] else old(buffer[k])
    {
      buffer[start + i] := data[i];
    }
  }

  /** The inference loop: S vectors of overlap and an even number of passes, which
      `CacheIndicesInBounds` shows to be those that keep within the cache. */
  class AudioProcessor {
    const read: nat -> seq<int>  // the result of each read of the sliding window
    const calculator: FeatureCalculator
    const vectors: nat
    const passes: nat
    const cols: nat
    var firstIteration: bool
    var windowsRead: nat

    constructor (read: nat -> seq<int>, calculator: FeatureCalculator, audioWindow: nat, frameStride: nat, cols: nat)
      requires frameStride > 0 && Passes(audioWindow, frameStride) % 2 == 0
      requires calculator.cache == seq(StrideVectors(audioWindow, frameStride), _ => [])
      requires forall w :: |calculator.compute(w)| == cols
      requires Passes(audioWindow, frameStride) * cols <= calculator.tensor.Length
      ensures this.read == read && this.calculator == calculator && this.cols == cols
      ensures vectors == StrideVectors(audioWindow, frameStride) && passes == Passes(audioWindow, frameStride)
      ensures Ready(0)
    {
      PassesPerStride(audioWindow, frameStride);
      this.read, this.calculator, this.cols := read, calculator, cols;
      vectors, passes := StrideVectors(audioWindow, frameStride), Passes(audioWindow, frameStride);
      firstIteration, windowsRead := true, 0;
    }

    /** Vector i of inference n, computed afresh from the read that is its own: the audio may
        have gaps where the task was stopped, the reads are counted through. */
    function Fresh(n: nat, i: nat): seq<int> {
      calculator.compute(read(n * vectors + i))
    }

    /** The state between inferences, after n of them. */
    ghost predicate Ready(n: nat)
      reads this, calculator
    {
      && (forall w :: |calculator.compute(w)| == cols)
      && passes == 2 * vectors
      && passes * cols <= calculator.tensor.Length
      && |calculator.cache| == vectors
      && firstIteration == (n == 0)
      && windowsRead == (if n == 0 then 0 else n * vectors + vectors)
      && (n > 0 ==> forall j :: 0 <= j < vectors ==> calculator.cache[j] == Fresh(n, j))
    }

    ghost predicate RowIsFresh(tensor: seq<int>, n: nat, i: nat) {
      (i + 1) * cols <= |tensor| && Row(tensor, i, cols) == Fresh(n, i)
    }

    /** The tensor that inference n would get if every vector were recomputed. */
    ghost predicate Recomputed(tensor: seq<int>, n: nat) {
      forall i :: 0 <= i < passes ==> RowIsFresh(tensor, n, i)
    }

    /** The cache inside inference n, before pass `index`. */
    ghost predicate CachePassing(cache: seq<seq<int>>, n: nat, index: nat) {
      && |cache| == vectors && index <= 2 * vectors
      && (n > 0 ==> forall j :: index <= j < vectors ==> cache[j] == Fresh(n, j))
      && (forall j :: 0 <= j < index - vectors ==> cache[j] == Fresh(n, vectors + j))
    }

    /** The reads made before pass `index` of inference n. */
    function ReadsBefore(n: nat, index: nat): nat {
      if n > 0 && index < vectors then n * vectors + vectors else n * vectors + index
    }

    /** The cache and the reader inside inference n, before pass `index`. */
    ghost predicate Passing(n: nat, index: nat)
      reads this, calculator
    {
      && passes == 2 * vectors
      && CachePassing(calculator.cache, n, index)
      && windowsRead == ReadsBefore(n, index)
    }

    /** What one pass makes of the cache. */
    lemma CacheNext(cache: seq<seq<int>>, next: seq<seq<int>>, n: nat, index: nat)
      requires CachePassing(cache, n, index) && index < 2 * vectors && |next| == vectors
      requires forall j :: 0 <= j < vectors && j != index && j != index - vectors ==> next[j] == cache[j]
      requires vectors <= index ==> next[index - vectors] == Fresh(n, index)
      ensures CachePassing(next, n, index + 1)
    {
    }

    /** The second half of one inference is the first half of the next. */
    lemma Overlap(n: nat, j: nat)
      ensures Fresh(n, vectors + j) == Fresh(n + 1, j)
    {
      assert (n + 1) * vectors == n * vectors + vectors;
    }

    /** One inference up to the call of the model. */
    method FillTensor(ghost n: nat)
      requires Ready(n)
      modifies this, calculator`cache, calculator.tensor
      ensures Ready(n + 1)
      ensures Recomputed(calculator.tensor[..], n)
    {
      var useCache := firstIteration == false && vectors > 0;
      var index := 0;
      while index < passes
        invariant Passing(n, index)
        invariant forall i :: 0 <= i < index ==> RowIsFresh(calculator.tensor[..], n, i)
      {
        OnePass(n, index, useCache);
        index := index + 1;
      }
      firstIteration := false;
      forall j | 0 <= j < vectors ensures calculator.cache[j] == Fresh(n + 1, j) {
        Overlap(n, j);
      }
      assert (n + 1) * vectors + vectors == n * vectors + 2 * vectors;
    }

    /** One pass of the loop: a new window is read unless the cache has the vector. */
    method OnePass(ghost n: nat, index: nat, useCache: bool)
      requires Passing(n, index) && index < passes
      requires useCache == (n > 0 && vectors > 0)
      requires forall w :: |calculator.compute(w)| == cols
      requires passes * cols <= calculator.tensor.Length
      requires forall i :: 0 <= i < index ==> RowIsFresh(calculator.tensor[..], n, i)
      modifies this`windowsRead, calculator`cache, calculator.tensor
      ensures Passing(n, index + 1)
      ensures forall i :: 0 <= i < index + 1 ==> RowIsFresh(calculator.tensor[..], n, i)
    {
      var window := [];
      if !useCache || index >= vectors {
        window := read(windowsRead);
        windowsRead := windowsRead + 1;
      }
      assert calculator.Features(window, index, useCache) == Fresh(n, index);
      MulMonotone(index + 1, passes, cols);
      ghost var before, cache := calculator.tensor[..], calculator.cache;
      calculator.Calculate(window, index, useCache, vectors);
      KeepRows(before, n, index);
      CacheNext(cache, calculator.cache, n, index);
    }

    lemma KeepRows(before: seq<int>, n: nat, index: nat)
      requires |Fresh(n, index)| == cols && (index + 1) * cols <= |before|
      requires forall i :: 0 <= i < index ==> RowIsFresh(before, n, i)
      ensures forall i :: 0 <= i <= index ==> RowIsFresh(WithRow(before, index, Fresh(n, index)), n, i)
    {
      forall i | 0 <= i < index
        ensures RowIsFresh(WithRow(before, index, Fresh(n, index)), n, i)
      {
        assert RowIsFresh(before, n, i);
        OtherRows(before, index, Fresh(n, index), i);
      }
    }

    /** The task's loop: before each inference the STOP flag is polled; when it is set the
        task waits for START and goes on with the cache and the stride it had, whatever the
        hardware did to the buffer meanwhile. Each poll without STOP makes one inference. The
        tensors are those the model was run on. */
    method Process(stops: seq<bool>, ghost done: nat) returns (tensors: seq<seq<int>>)
      requires Ready(done)
      modifies this, calculator`cache, calculator.tensor
      ensures |tensors| == multiset(stops)[false]
      ensures Ready(done + |tensors|)
      ensures forall n :: 0 <= n < |tensors| ==>
                |tensors[n]| == calculator.tensor.Length && Recomputed(tensors[n], done + n)
    {
      tensors := [];
      for i := 0 to |stops|
        invariant |tensors| == multiset(stops[..i])[false]
        invariant Ready(done + |tensors|)
        invariant forall n :: 0 <= n < |tensors| ==>
                    |tensors[n]| == calculator.tensor.Length && Recomputed(tensors[n], done + n)
      {
        assert stops[..i + 1] == stops[..i] + [stops[i]];
        if !stops[i] {
          FillTensor(done + |tensors|);
          tensors := tensors + [calculator.tensor[..]];
        }
      }
      assert stops[..|stops|] == stops;
    }
  }

  /** When the reads are those of a run in which the hardware never comes round to a sample
      about to be copied, every row is the features of its own window of the stream. */
  lemma RowsAreTheStream(p: AudioProcessor, tensor: seq<int>, n: nat,
                         c: Config, states: seq<State>, actions: seq<Action>, i: nat)
    requires c.Valid() && Run(c, states, actions) && HardwareOverflow !in actions
    requires forall j :: 0 <= j < |states| ==> Unlapped(c, states[j])
    requires forall k :: 0 <= k < |states[|actions|].outputs| ==> p.read(k) == states[|actions|].outputs[k]
    requires n * p.vectors + p.passes <= |states[|actions|].outputs|
    requires p.Recomputed(tensor, n) && i < p.passes
    ensures (i + 1) * p.cols <= |tensor|
    ensures Row(tensor, i, p.cols) == p.calculator.compute(c.Window(n * p.vectors + i))
  {
    ReadsAreTheStream(c, states, actions, |actions|);
    assert p.RowIsFresh(tensor, n, i);
    assert p.read(n * p.vectors + i) == states[|actions|].outputs[n * p.vectors + i];
  }

}
