/** The static split of n items among workers that both phases use. */
module Workers {
  import opened Common

  const DEFAULT_WORKERS: int := 30

  /** The pool size in use: the configured one if positive, never more than there are items. */
  function EffectiveWorkers(configured: int, items: nat): (w: nat)
    ensures w <= items && (items > 0 ==> w > 0)
  {
    Min(if configured <= 0 then DEFAULT_WORKERS else configured, items)
  }

  /** Ceiling division: the number of items each worker owns. */
  function PerWorker(items: nat, workers: nat): nat
    requires workers > 0
  {
    (items + workers - 1) / workers
  }

  /** Worker w's first item; the next worker's first item ends its range. */
  function ChunkStart(w: nat, per: nat, items: nat): (r: nat)
    ensures r <= items
  {
    if w == 0 then 0 else Min(ChunkStart(w - 1, per, items) + per, items)
  }

  lemma {:induction false} ChunkStartProduct(w: nat, per: nat, items: nat)
    ensures ChunkStart(w, per, items) == Min(w * per, items)
  {
    if w == 0 {
    } else {
      ChunkStartProduct(w - 1, per, items);
      assert w * per == (w - 1) * per + per;
    }
  }

  lemma PerWorkerCovers(items: nat, workers: nat)
    requires workers > 0
    ensures workers * PerWorker(items, workers) >= items
    ensures items > 0 ==> PerWorker(items, workers) > 0
  {
    var per := PerWorker(items, workers);
    var q := items + workers - 1;
    assert q == per * workers + q % workers;
    assert workers * per == per * workers;
    if items > 0 {
      assert per * workers > q - workers >= 0;
      assert per != 0;
    }
  }

  /** The ranges cover everything: after the last worker nothing is left. */
  lemma ChunksCover(items: nat, workers: nat)
    requires workers > 0
    ensures ChunkStart(workers, PerWorker(items, workers), items) == items
  {
    PerWorkerCovers(items, workers);
    ChunkStartProduct(workers, PerWorker(items, workers), items);
  }

  lemma {:induction false} ChunkMonotone(v: nat, w: nat, per: nat, items: nat)
    requires v <= w
    ensures ChunkStart(v, per, items) <= ChunkStart(w, per, items)
    decreases w
  {
    if v == w {
    } else {
      ChunkMonotone(v, w - 1, per, items);
    }
  }

  ghost predicate Owns(w: nat, per: nat, items: nat, item: nat)
  {
    ChunkStart(w, per, items) <= item < ChunkStart(w + 1, per, items)
  }

  /** Every item belongs to exactly one of the workers. */
  lemma OneOwner(items: nat, workers: nat, item: nat) returns (w: nat)
    requires workers > 0 && item < items
    ensures w < workers && Owns(w, PerWorker(items, workers), items, item)
    ensures forall v: nat :: Owns(v, PerWorker(items, workers), items, item) ==> v == w
  {
    var per := PerWorker(items, workers);
    ChunksCover(items, workers);
    w := 0;
    while ChunkStart(w + 1, per, items) <= item
      invariant w < workers
      invariant ChunkStart(w, per, items) <= item
      decreases workers - w
    {
      w := w + 1;
    }
    forall v: nat | Owns(v, per, items, item) ensures v == w {
      if v < w {
        ChunkMonotone(v + 1, w, per, items);
      } else if w < v {
        ChunkMonotone(w + 1, v, per, items);
      }
    }
  }
}
