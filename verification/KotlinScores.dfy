/** Kotlin's Phase 1 in its own form: one preallocated delta array, the frozen TPID map, 16-bit cells. */
module KotlinScores {
  import opened Common
  import opened GoState
  import opened FlatMatrix
  import opened Workers
  import opened GoEngine
  import opened KotlinEngine
  import opened KotlinHotPath

  class ScoreUpdater {
    const matrix: PPSMatrix
    const indexes: FrozenIndexes
    const delta: array<int>
    const numWorkers: nat

    ghost predicate Valid() { matrix.Valid() && delta.Length == NUM_ORDERS && delta != matrix.data && numWorkers > 0 }

    constructor (numPPS: nat, workers: nat)
      requires workers > 0
      ensures Valid() && matrix.NumPPS == numPPS && fresh(matrix.data) && fresh(delta) && fresh(indexes)
    {
      matrix := new PPSMatrix(numPPS);
      indexes := new FrozenIndexes();
      delta := new int[NUM_ORDERS];
      numWorkers := workers;
    }

    /** Clears the delta array and scatters the updates into it through the frozen map. */
    method Accumulate(updates: seq<TPIDUpdate>)
      requires Valid()
      modifies delta
      ensures Scattered(delta[..], KDiff, indexes.tpidFrozen, updates)
    {
      forall o | 0 <= o < delta.Length {
        delta[o] := 0;
      }
      for j := 0 to |updates|
        invariant Scattered(delta[..], KDiff, indexes.tpidFrozen, updates[..j])
      {
        var u := updates[j];
        var diff := u.newContrib - u.oldContrib;
        ghost var was := delta[..];
        if diff == 0.0 || u.tpid !in indexes.tpidFrozen {
          ScatteredSkip(was, KDiff, indexes.tpidFrozen, updates, j);
        } else {
          var diffI32 := KToInt32(diff * SCORE_SCALE);
          CreditList(delta, diffI32, indexes.tpidFrozen[u.tpid]);
          ScatteredStep(was, delta[..], KDiff, indexes.tpidFrozen, updates, j);
        }
      }
      assert updates[..|updates|] == updates;
    }

    /** One row of the matrix: every cell gains its order's delta and is clamped to 16 bits. */
    method UpdateRow(ppsID: nat)
      requires Valid() && ppsID < matrix.NumPPS
      modifies matrix.data
      ensures matrix.data[..] ==
              SweptBy(KCell, old(matrix.data[..]), ppsID * NUM_ORDERS, (ppsID + 1) * NUM_ORDERS, delta[..])
    {
      ghost var was := matrix.data[..];
      var off := ppsID * NUM_ORDERS;
      for o := 0 to NUM_ORDERS
        invariant matrix.data[..] == SweptBy(KCell, was, off, off + o, delta[..])
      {
        ghost var before := matrix.data[..];
        SweepCell(KCell, was, before, off, off + o, delta[..]);
        assert (off + o) % NUM_ORDERS == o;
        var v := Wrap32(matrix.data[off + o] + delta[o]);
        var cell := if v > 32767 then 32767 else if v < -32768 then -32768 else v;
        assert cell == KCell(before[off + o], delta[o]);
        matrix.data[off + o] := cell;
        assert matrix.data[..] == before[off + o := cell];
      }
    }

    /** The rows from lo to hi, in order. */
    method UpdateRows(lo: nat, hi: nat)
      requires Valid() && lo <= hi <= matrix.NumPPS
      modifies matrix.data
      ensures matrix.data[..] == SweptBy(KCell, old(matrix.data[..]), lo * NUM_ORDERS, hi * NUM_ORDERS, delta[..])
    {
      ghost var was := matrix.data[..];
      for ppsID := lo to hi
        invariant matrix.data[..] == SweptBy(KCell, was, lo * NUM_ORDERS, ppsID * NUM_ORDERS, delta[..])
      {
        UpdateRow(ppsID);
        SweptTwice(KCell, was, lo * NUM_ORDERS, ppsID * NUM_ORDERS, (ppsID + 1) * NUM_ORDERS, delta[..]);
      }
    }

    /** Phase 1: the delta is accumulated once, then each chunk of rows is swept. */
    method Phase1Update(updates: seq<TPIDUpdate>, ghost s: State)
      requires Valid() && |s.rows| == matrix.NumPPS && RowsOf(matrix.data[..], matrix.NumPPS) == s.rows
      modifies delta, matrix.data
      ensures RowsOf(matrix.data[..], matrix.NumPPS) == KPhase1(s, indexes.tpidFrozen, updates).rows
    {
      if |updates| == 0 {
        return;
      }
      Accumulate(updates);
      ghost var was := matrix.data[..];
      var rowsPerWorker := PerWorker(matrix.NumPPS, numWorkers);
      var rowStart := 0;
      while rowStart < matrix.NumPPS
        invariant matrix.data[..] == SweptBy(KCell, was, 0, Min(rowStart, matrix.NumPPS) * NUM_ORDERS, delta[..])
        invariant Scattered(delta[..], KDiff, indexes.tpidFrozen, updates)
        decreases matrix.NumPPS - rowStart
      {
        var hi := Min(rowStart + rowsPerWorker, matrix.NumPPS);
        PerWorkerCovers(matrix.NumPPS, numWorkers);
        UpdateRows(rowStart, hi);
        SweptTwice(KCell, was, 0, rowStart * NUM_ORDERS, hi * NUM_ORDERS, delta[..]);
        rowStart := rowStart + rowsPerWorker;
      }
      SweptRows(KCell, KDiff, was, matrix.NumPPS, indexes.tpidFrozen, updates, delta[..]);
    }
  }
}
