/**
 * Fixed-size chunking of batch entries, as `SQSUtils._get_batches` does before each
 * bulk submission.
 */
module Batching {

  /** `SQSUtils.MAX_BATCH_SIZE`: the most entries one `send_message_batch` call carries. */
  const MaxBatchSize: nat := 10

  /** How many starts `range(0, n, MaxBatchSize)` yields. */
  function ChunkCount(n: nat): nat {
    (n + MaxBatchSize - 1) / MaxBatchSize
  }

  /** Python's `entries[start : start + MaxBatchSize]`, clamped at the end. */
  function Chunk<T>(entries: seq<T>, start: nat): seq<T>
    requires start <= |entries|
  {
    entries[start .. if start + MaxBatchSize <= |entries| then start + MaxBatchSize else |entries|]
  }

  /** `_get_batches`: one slice per start `0, 10, 20, ...` below `|entries|`. */
  function Batches<T>(entries: seq<T>): seq<seq<T>>
  {
    seq(ChunkCount(|entries|), k requires 0 <= k < ChunkCount(|entries|) => Chunk(entries, k * MaxBatchSize))
  }

  /** Concatenation of a sequence of chunks, in order. */
  function Flatten<T>(chunks: seq<seq<T>>): seq<T>
  {
    if chunks == [] then [] else chunks[0] + Flatten(chunks[1..])
  }

  /** The first chunk, followed by the chunks of what remains. */
  lemma BatchesUnfold<T>(entries: seq<T>)
    requires entries != []
    ensures var m := |Chunk(entries, 0)|;
      Batches(entries) == [Chunk(entries, 0)] + Batches(entries[m..])
  {
    var n := |entries|;
    var m := |Chunk(entries, 0)|;
    var rest := entries[m..];
    assert ChunkCount(n) == 1 + ChunkCount(|rest|);
    var lhs := Batches(entries);
    var rhs := [Chunk(entries, 0)] + Batches(rest);
    forall k | 1 <= k < |lhs|
      ensures lhs[k] == rhs[k]
    {
      assert m == MaxBatchSize;
      assert rhs[k] == Chunk(rest, (k - 1) * MaxBatchSize);
    }
  }

  /** Concatenating the batches gives back exactly the entries, in order. */
  lemma {:induction false} FlattenBatches<T>(entries: seq<T>)
    ensures Flatten(Batches(entries)) == entries
    decreases |entries|
  {
    if entries != [] {
      var first := Chunk(entries, 0);
      var rest := entries[|first|..];
      BatchesUnfold(entries);
      assert Batches(entries)[1..] == Batches(rest);
      FlattenBatches(rest);
      assert first + rest == entries;
    }
  }

  /**
   * There are ceil(n / 10) batches (none for no entries); each holds between 1 and 10
   * entries, and every batch but the last holds exactly 10.
   */
  lemma BatchShape<T>(entries: seq<T>)
    ensures var b := Batches(entries);
      && |b| * MaxBatchSize >= |entries|
      && (|b| > 0 ==> (|b| - 1) * MaxBatchSize < |entries|)
      && (|b| == 0 <==> entries == [])
      && (forall k :: 0 <= k < |b| ==> 0 < |b[k]| <= MaxBatchSize)
      && (forall k :: 0 <= k < |b| - 1 ==> |b[k]| == MaxBatchSize)
  {
  }

  /** Twenty-five entries form batches of 10, 10 and 5. */
  lemma TwentyFiveEntries<T>(entries: seq<T>)
    requires |entries| == 25
    ensures var b := Batches(entries);
      |b| == 3 && |b[0]| == 10 && |b[1]| == 10 && |b[2]| == 5
  {
  }
}
