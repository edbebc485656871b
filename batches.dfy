/** The batches in which commitment creation walks the plot: starting at 0,
    every `batchSize` pieces, each as long as the pieces left allow. */
module Batches {

  /** The batch starts `from, from + batchSize, ...` below `pieceCount`
      (`(0..piece_count).step_by(BATCH_SIZE)`). */
  function BatchStarts(pieceCount: nat, batchSize: nat, from: nat): (starts: seq<nat>)
    requires batchSize > 0
    decreases pieceCount - from
  {
    if from >= pieceCount then [] else [from] + BatchStarts(pieceCount, batchSize, from + batchSize)
  }

  /** Every batch start lies in `[from, pieceCount)`. */
  lemma {:induction false} StartsInPlot(pieceCount: nat, batchSize: nat, from: nat)
    requires batchSize > 0
    ensures forall i :: 0 <= i < |BatchStarts(pieceCount, batchSize, from)| ==>
              from <= BatchStarts(pieceCount, batchSize, from)[i] < pieceCount
    decreases pieceCount - from
  {
    if from < pieceCount {
      StartsInPlot(pieceCount, batchSize, from + batchSize);
      var r := BatchStarts(pieceCount, batchSize, from);
      var tail := BatchStarts(pieceCount, batchSize, from + batchSize);
      assert r == [from] + tail;
      forall i | 0 <= i < |r| ensures from <= r[i] < pieceCount {
        if i > 0 {
          assert r[i] == tail[i - 1];
          assert from + batchSize <= tail[i - 1] < pieceCount;
        } else {
          assert r[0] == from;
        }
      }
    }
  }

  /** `(batch_start + BATCH_SIZE).min(piece_count) - batch_start`. */
  function BatchLen(start: nat, batchSize: nat, pieceCount: nat): (len: nat)
    requires start < pieceCount
  {
    (if start + batchSize < pieceCount then start + batchSize else pieceCount) - start
  }

  /** The piece indices `[a, b)` in ascending order. */
  function Range(a: nat, b: nat): (r: seq<nat>)
    requires a <= b
    ensures |r| == b - a && forall i :: 0 <= i < |r| ==> r[i] == a + i
  {
    seq(b - a, i requires 0 <= i < b - a => a + i)
  }

  /** The piece indices covered by the batches from `from` on, batch after batch. */
  function Covered(pieceCount: nat, batchSize: nat, from: nat): (pieces: seq<nat>)
    requires batchSize > 0
    decreases pieceCount - from
  {
    if from >= pieceCount then []
    else Range(from, from + BatchLen(from, batchSize, pieceCount)) + Covered(pieceCount, batchSize, from + batchSize)
  }

  /** Consecutive starts are `batchSize` apart and the first is `from`. */
  lemma {:induction false} StartsStep(pieceCount: nat, batchSize: nat, from: nat)
    requires batchSize > 0
    ensures var r := BatchStarts(pieceCount, batchSize, from);
            && (from < pieceCount ==> r != [] && r[0] == from)
            && forall i :: 0 <= i < |r| - 1 ==> r[i + 1] == r[i] + batchSize
    decreases pieceCount - from
  {
    if from < pieceCount {
      StartsStep(pieceCount, batchSize, from + batchSize);
      var r := BatchStarts(pieceCount, batchSize, from);
      assert r[1..] == BatchStarts(pieceCount, batchSize, from + batchSize);
    }
  }

  /** The batches tile `[from, pieceCount)` exactly: in order, with no gap
      and no overlap. */
  lemma {:induction false} BatchesCover(pieceCount: nat, batchSize: nat, from: nat)
    requires batchSize > 0 && from <= pieceCount
    ensures Covered(pieceCount, batchSize, from) == Range(from, pieceCount)
    decreases pieceCount - from
  {
    if from < pieceCount {
      var len := BatchLen(from, batchSize, pieceCount);
      if from + batchSize < pieceCount {
        BatchesCover(pieceCount, batchSize, from + batchSize);
        assert Range(from, from + len) + Range(from + batchSize, pieceCount) == Range(from, pieceCount);
      } else {
        assert Covered(pieceCount, batchSize, from + batchSize) == [];
        assert Range(from, from + len) + [] == Range(from, pieceCount);
      }
    }
  }
}
