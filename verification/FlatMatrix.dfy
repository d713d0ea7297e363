/** A row-major matrix stored flat, and the same matrix as a sequence of rows. */
module FlatMatrix {
  import opened Common
  import opened GoState

  /** Row p of a flat row-major matrix. */
  function RowsOf(flat: seq<int>, n: nat): (rows: seq<seq<int>>)
    requires |flat| == n * NUM_ORDERS
    ensures |rows| == n
    ensures forall p :: 0 <= p < n ==> |rows[p]| == NUM_ORDERS
  {
    seq(n, p requires 0 <= p < n => flat[p * NUM_ORDERS..(p + 1) * NUM_ORDERS])
  }

  lemma RowCell(flat: seq<int>, n: nat, p: int, o: int)
    requires |flat| == n * NUM_ORDERS && 0 <= p < n && 0 <= o < NUM_ORDERS
    ensures 0 <= p * NUM_ORDERS + o < |flat|
    ensures RowsOf(flat, n)[p][o] == flat[p * NUM_ORDERS + o]
    ensures (p * NUM_ORDERS + o) / NUM_ORDERS == p && (p * NUM_ORDERS + o) % NUM_ORDERS == o
  {
  }

  /** The flat matrix with column o set to v in the rows below hi. */
  function ColumnSet(flat: seq<int>, o: nat, v: int, hi: nat): (r: seq<int>)
    ensures |r| == |flat|
  {
    seq(|flat|, i requires 0 <= i < |flat| => if i / NUM_ORDERS < hi && i % NUM_ORDERS == o then v else flat[i])
  }

  lemma ColumnSetRows(flat: seq<int>, n: nat, o: nat, v: int)
    requires |flat| == n * NUM_ORDERS && o < NUM_ORDERS
    ensures RowsOf(ColumnSet(flat, o, v, n), n) == SetColumn(RowsOf(flat, n), o, v)
  {
    var flat' := ColumnSet(flat, o, v, n);
    forall p, i | 0 <= p < n && 0 <= i < NUM_ORDERS
      ensures RowsOf(flat', n)[p][i] == SetColumn(RowsOf(flat, n), o, v)[p][i]
    {
      RowCell(flat, n, p, i);
      RowCell(flat', n, p, i);
    }
    forall p | 0 <= p < n ensures RowsOf(flat', n)[p] == SetColumn(RowsOf(flat, n), o, v)[p] {
    }
  }

  /** The flat matrix after the kernel cell has swept the positions from lo to hi. */
  function SweptBy(cell: (int, int) -> int, flat: seq<int>, lo: int, hi: int, delta: seq<int>): (r: seq<int>)
    requires |delta| == NUM_ORDERS
    ensures |r| == |flat|
  {
    seq(|flat|, i requires 0 <= i < |flat| => if lo <= i < hi then cell(flat[i], delta[i % NUM_ORDERS]) else flat[i])
  }

  function Swept(flat: seq<int>, lo: int, hi: int, delta: seq<int>): (r: seq<int>)
    requires |delta| == NUM_ORDERS
    ensures |r| == |flat|
  {
    SweptBy(Saturated, flat, lo, hi, delta)
  }

  lemma SweepCell(cell: (int, int) -> int, was: seq<int>, cur: seq<int>, lo: int, at: int, delta: seq<int>)
    requires |delta| == NUM_ORDERS && lo <= at && 0 <= at < |was|
    requires cur == SweptBy(cell, was, lo, at, delta)
    ensures cur[at := cell(cur[at], delta[at % NUM_ORDERS])] == SweptBy(cell, was, lo, at + 1, delta)
  {
  }

  /** Sweeping two adjacent ranges one after the other sweeps their union. */
  lemma SweptTwice(cell: (int, int) -> int, flat: seq<int>, lo: int, mid: int, hi: int, delta: seq<int>)
    requires |delta| == NUM_ORDERS && lo <= mid <= hi
    ensures SweptBy(cell, SweptBy(cell, flat, lo, mid, delta), mid, hi, delta) == SweptBy(cell, flat, lo, hi, delta)
  {
  }

  /** A sweep of the whole flat matrix with the scattered deltas updates every row. */
  lemma SweptRows(cell: (int, int) -> int, diff: TPIDUpdate -> int, flat: seq<int>, n: nat,
                  fwd: map<nat, seq<nat>>, updates: seq<TPIDUpdate>, delta: seq<int>)
    requires |flat| == n * NUM_ORDERS && |delta| == NUM_ORDERS
    requires forall o :: 0 <= o < NUM_ORDERS ==> delta[o] == Wrap32(ScatterBy(diff, fwd, updates, o))
    ensures RowsOf(SweptBy(cell, flat, 0, |flat|, delta), n) == RowsBy(cell, diff, RowsOf(flat, n), fwd, updates)
  {
    var flat' := SweptBy(cell, flat, 0, |flat|, delta);
    var want := RowsBy(cell, diff, RowsOf(flat, n), fwd, updates);
    forall p, i | 0 <= p < n && 0 <= i < NUM_ORDERS
      ensures RowsOf(flat', n)[p][i] == want[p][i]
    {
      RowCell(flat, n, p, i);
      RowCell(flat', n, p, i);
    }
    forall p | 0 <= p < n ensures RowsOf(flat', n)[p] == want[p] {
    }
  }

  lemma ZeroRows(n: nat)
    ensures RowsOf(seq(n * NUM_ORDERS, _ => 0), n) == seq(n, _ => seq(NUM_ORDERS, _ => 0))
  {
    var flat := seq(n * NUM_ORDERS, _ => 0);
    forall p | 0 <= p < n ensures RowsOf(flat, n)[p] == seq(NUM_ORDERS, _ => 0) {
      forall o | 0 <= o < NUM_ORDERS ensures RowsOf(flat, n)[p][o] == 0 {
        RowCell(flat, n, p, o);
      }
    }
  }
}
