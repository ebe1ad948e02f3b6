/** The audio side: filling the output buffer of one stream callback from
    a stateful sample generator, frame by frame. The oscillator that
    produces the samples does float arithmetic and is not modelled; it is
    represented by the sequence of values its successive calls return. */
module Audio {

  /** A half-open index range `[lo, hi)` of the output buffer. */
  datatype Chunk = Chunk(lo: nat, hi: nat)

  /** `chunks_mut(size)` on a buffer of length `len`, starting at `from`:
      consecutive ranges of `size` slots that tile `[from, len)`, the last
      one possibly shorter. */
  function ChunksMut(len: nat, size: nat, from: nat): (r: seq<Chunk>)
    requires size > 0 && from <= len
    ensures r == [] <==> from == len
    ensures r != [] ==> r[0].lo == from && r[|r| - 1].hi == len
    ensures forall k :: 0 <= k < |r| ==> r[k].lo < r[k].hi <= len && r[k].hi - r[k].lo <= size
    ensures forall k :: 0 <= k < |r| - 1 ==> r[k].hi == r[k + 1].lo && r[k].hi - r[k].lo == size
    decreases len - from
  {
    if from == len then []
    else
      var hi := if len - from < size then len else from + size;
      [Chunk(from, hi)] + ChunksMut(len, size, hi)
  }

  /** The number of chunks is the buffer length divided by the chunk size,
      rounded up: a short final chunk is still produced. */
  lemma {:induction false} ChunkCount(len: nat, size: nat, from: nat)
    requires size > 0 && from <= len
    ensures var n := |ChunksMut(len, size, from)|;
      (n - 1) * size < len - from <= n * size
    decreases len - from
  {
    if from < len {
      var hi := if len - from < size then len else from + size;
      var r := ChunksMut(len, size, from);
      assert r == [Chunk(from, hi)] + ChunksMut(len, size, hi);
      if hi < len {
        var n := |ChunksMut(len, size, hi)|;
        ChunkCount(len, size, hi);
        assert |r| == n + 1;
        MulSucc(n - 1, size);
        MulSucc(n, size);
      } else {
        assert |r| == 1;
      }
    }
  }

  /** One more row of `size`. */
  lemma MulSucc(n: int, size: int)
    ensures (n + 1) * size == n * size + size
  {
  }

  /** The sample generator (`next_sample`): a closure with private state,
      modelled by the values `sample(0), sample(1), ...` its successive
      calls return and the number of calls made so far. */
  class SampleSource<T> {
    const sample: nat -> T
    var calls: nat

    constructor (sample: nat -> T)
      ensures this.sample == sample && calls == 0
    {
      this.sample := sample;
      calls := 0;
    }

    /** One call of the generator: the next value of the sequence. */
    method Next() returns (s: T)
      modifies this
      ensures s == sample(old(calls)) && calls == old(calls) + 1
    {
      s := sample(calls);
      calls := calls + 1;
    }
  }

  /** The buffer contents after a fill of `n` slots that begins at generator
      call number `first`. */
  function Filled<T>(sample: nat -> T, first: nat, n: nat): (s: seq<T>)
    ensures |s| == n
    ensures forall k :: 0 <= k < n ==> s[k] == sample(first + k)
  {
    seq(n, k requires 0 <= k => sample(first + k))
  }

  /** `write_data`: walk the buffer in chunks of `channels` slots and give
      every slot, in ascending order, the value of its own generator call. */
  method WriteData<T>(output: array<T>, channels: nat, next: SampleSource<T>)
    requires channels > 0
    modifies output, next
    ensures output[..] == Filled(next.sample, old(next.calls), output.Length)
    ensures next.calls == old(next.calls) + output.Length
  {
    ghost var first := next.calls;
    var chunks := ChunksMut(output.Length, channels, 0);
    var c := 0;
    while c < |chunks|
      invariant 0 <= c <= |chunks|
      invariant var done := if c < |chunks| then chunks[c].lo else output.Length;
        next.calls == first + done &&
        (forall k :: 0 <= k < done ==> output[k] == next.sample(first + k))
    {
      var j := chunks[c].lo;
      while j < chunks[c].hi
        invariant chunks[c].lo <= j <= chunks[c].hi
        invariant next.calls == first + j
        invariant forall k :: 0 <= k < j ==> output[k] == next.sample(first + k)
      {
        output[j] := next.Next();
        j := j + 1;
      }
      c := c + 1;
    }
  }
}
