/** Splitting work lists into batches, as `batch_primers` and
    `batch_words` do with `[xs[i:i + size] for i in range(0, len(xs), size)]`. */
module Batching {
  import opened Wrappers
  import opened Seqs

  /** The integers `start .. end`, both included (`range(start, end + 1)`). */
  function IntRange(start: int, end: int): (r: seq<int>)
    ensures |r| == if end < start then 0 else end - start + 1
    ensures forall i :: 0 <= i < |r| ==> r[i] == start + i
  {
    if end < start then [] else seq(end - start + 1, i requires 0 <= i <= end - start => start + i)
  }

  /** Consecutive slices of `size` elements; the last one may be shorter. */
  function ChunksOf<T>(xs: seq<T>, size: nat): (r: seq<seq<T>>)
    requires size > 0
    ensures forall k :: 0 <= k < |r| ==> 0 < |r[k]| <= size
    ensures forall k :: 0 <= k < |r| - 1 ==> |r[k]| == size
    decreases |xs|
  {
    if |xs| == 0 then []
    else if |xs| <= size then [xs]
    else [xs[..size]] + ChunksOf(xs[size..], size)
  }

  /** The list comprehension over `range(0, len(xs), size)`: a zero step
      makes `range` raise `ValueError`, a negative one gives no batch. */
  function Chunks<T>(xs: seq<T>, size: int): (r: Result<seq<seq<T>>>)
    ensures r.Err? <==> size == 0
    ensures r.Err? ==> r.failure == ValueError
    ensures size < 0 ==> r == Ok([])
    ensures size > 0 ==> r == Ok(ChunksOf(xs, size))
  {
    if size == 0 then Err(ValueError)
    else if size < 0 then Ok([])
    else Ok(ChunksOf(xs, size))
  }

  /** Concatenating the batches gives back the list, in order. */
  lemma {:induction false} ChunksFlatten<T>(xs: seq<T>, size: nat)
    requires size > 0
    ensures Flatten(ChunksOf(xs, size)) == xs
    decreases |xs|
  {
    if |xs| > size {
      ChunksFlatten(xs[size..], size);
      assert xs == xs[..size] + xs[size..];
    }
  }

  /** There are `ceil(|xs| / size)` batches: enough to hold every element,
      and one fewer would not be. */
  lemma {:induction false} ChunksCount<T>(xs: seq<T>, size: nat)
    requires size > 0
    ensures |xs| <= |ChunksOf(xs, size)| * size
    ensures |xs| > 0 ==> (|ChunksOf(xs, size)| - 1) * size < |xs|
    decreases |xs|
  {
    if |xs| > size {
      var n := |ChunksOf(xs[size..], size)|;
      ChunksCount(xs[size..], size);
      assert (n + 1) * size == n * size + size;
    }
  }

  /** `batch_primers`: the primers `start .. end` in batches of
      `batchSize`. */
  function BatchPrimers(start: int, end: int, batchSize: int): (r: Result<seq<seq<int>>>)
    ensures r.Err? <==> batchSize == 0
    ensures r.Ok? && batchSize > 0 ==> Flatten(r.value) == IntRange(start, end)
    ensures r.Ok? && batchSize > 0 ==> forall k :: 0 <= k < |r.value| - 1 ==> |r.value[k]| == batchSize
    ensures r.Ok? ==> forall k :: 0 <= k < |r.value| ==> 0 < |r.value[k]| <= batchSize
  {
    var all := IntRange(start, end);
    if batchSize > 0 then
      ChunksFlatten(all, batchSize);
      Chunks(all, batchSize)
    else Chunks(all, batchSize)
  }

  /** The default primer range: every five-digit primer, 1000 to a batch,
      90 batches in all. */
  lemma {:induction false} DefaultPrimerBatches()
    ensures BatchPrimers(10000, 99999, 1000).Ok?
    ensures |BatchPrimers(10000, 99999, 1000).value| == 90
  {
    ChunksCount(IntRange(10000, 99999), 1000);
  }
}
