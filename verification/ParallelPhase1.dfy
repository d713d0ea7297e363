/**
 * Phase 1 as a pool of workers over one flat matrix. A step is one cell update by one worker; a
 * schedule names the worker of each step. Any schedule that lets every worker finish leaves the
 * matrix a single sweep would.
 */
module ParallelPhase1 {
  import opened Common
  import opened GoState
  import opened FlatMatrix
  import opened Workers

  datatype Pool = Pool(data: seq<int>, at: seq<int>)

  /** The cell where worker w's rows start. */
  function FirstCell(w: nat, per: nat, rows: nat): nat { ChunkStart(w, per, rows) * NUM_ORDERS }

  function Start(data: seq<int>, workers: nat, per: nat, rows: nat): Pool
  {
    Pool(data, seq(workers, w requires 0 <= w < workers => FirstCell(w, per, rows)))
  }

  /** Worker w updates the cell it stands at, or rests when its rows are done. */
  function Step(g: Pool, w: nat, per: nat, rows: nat, delta: seq<int>): (r: Pool)
    requires |delta| == NUM_ORDERS
    ensures |r.data| == |g.data| && |r.at| == |g.at|
  {
    if w < |g.at| && 0 <= g.at[w] < FirstCell(w + 1, per, rows) && g.at[w] < |g.data| then
      var c := g.at[w];
      Pool(g.data[c := Saturated(g.data[c], delta[c % NUM_ORDERS])], g.at[w := c + 1])
    else g
  }

  function Run(g: Pool, schedule: seq<nat>, per: nat, rows: nat, delta: seq<int>): (r: Pool)
    requires |delta| == NUM_ORDERS
    ensures |r.data| == |g.data|
  {
    if schedule == [] then g
    else Step(Run(g, schedule[..|schedule| - 1], per, rows, delta), schedule[|schedule| - 1], per, rows, delta)
  }

  ghost predicate AllDone(g: Pool, per: nat, rows: nat)
  {
    forall w: nat :: w < |g.at| ==> g.at[w] == FirstCell(w + 1, per, rows)
  }

  /** Cell c of worker w holds its final value once the worker has passed it, its first value before. */
  ghost predicate CellKept(was: seq<int>, g: Pool, w: nat, c: nat, per: nat, rows: nat, delta: seq<int>)
    requires |delta| == NUM_ORDERS && |g.data| == |was| && w < |g.at|
  {
    FirstCell(w, per, rows) <= c < FirstCell(w + 1, per, rows) && c < |was| ==>
      g.data[c] == if c < g.at[w] then Saturated(was[c], delta[c % NUM_ORDERS]) else was[c]
  }

  ghost predicate Inv(was: seq<int>, g: Pool, per: nat, rows: nat, delta: seq<int>)
    requires |delta| == NUM_ORDERS
  {
    && |g.data| == |was| == rows * NUM_ORDERS
    && (forall w: nat :: w < |g.at| ==> FirstCell(w, per, rows) <= g.at[w] <= FirstCell(w + 1, per, rows))
    && forall w: nat, c: nat :: w < |g.at| ==> CellKept(was, g, w, c, per, rows, delta)
  }

  lemma StepKeepsInv(was: seq<int>, g: Pool, w: nat, per: nat, rows: nat, delta: seq<int>)
    requires |delta| == NUM_ORDERS && Inv(was, g, per, rows, delta)
    ensures Inv(was, Step(g, w, per, rows, delta), per, rows, delta)
  {
    var g' := Step(g, w, per, rows, delta);
    if g' != g {
      forall v: nat, c: nat | v < |g.at| ensures CellKept(was, g', v, c, per, rows, delta) {
        assert CellKept(was, g, v, c, per, rows, delta);
        if v < w {
          ChunkMonotone(v + 1, w, per, rows);
        } else if v > w {
          ChunkMonotone(w + 1, v, per, rows);
        }
      }
    }
  }

  lemma {:induction false} RunKeepsInv(was: seq<int>, workers: nat, schedule: seq<nat>, per: nat, rows: nat,
                                       delta: seq<int>)
    requires |delta| == NUM_ORDERS && |was| == rows * NUM_ORDERS
    ensures var g := Run(Start(was, workers, per, rows), schedule, per, rows, delta);
            Inv(was, g, per, rows, delta) && |g.at| == workers
  {
    if schedule == [] {
      forall w: nat ensures ChunkStart(w, per, rows) <= ChunkStart(w + 1, per, rows) {
        ChunkMonotone(w, w + 1, per, rows);
      }
    } else {
      RunKeepsInv(was, workers, schedule[..|schedule| - 1], per, rows, delta);
      var g := Run(Start(was, workers, per, rows), schedule[..|schedule| - 1], per, rows, delta);
      StepKeepsInv(was, g, schedule[|schedule| - 1], per, rows, delta);
    }
  }

  /** However the workers interleave, the finished matrix is the sequential sweep. */
  lemma AnyScheduleSweeps(was: seq<int>, workers: nat, schedule: seq<nat>, rows: nat, delta: seq<int>)
    requires workers > 0 && |delta| == NUM_ORDERS && |was| == rows * NUM_ORDERS
    requires var per := PerWorker(rows, workers);
             AllDone(Run(Start(was, workers, per, rows), schedule, per, rows, delta), per, rows)
    ensures var per := PerWorker(rows, workers);
            Run(Start(was, workers, per, rows), schedule, per, rows, delta).data == Swept(was, 0, |was|, delta)
  {
    var per := PerWorker(rows, workers);
    var g := Run(Start(was, workers, per, rows), schedule, per, rows, delta);
    RunKeepsInv(was, workers, schedule, per, rows, delta);
    forall c: nat | c < |was| ensures g.data[c] == Swept(was, 0, |was|, delta)[c] {
      var w := OneOwner(rows, workers, c / NUM_ORDERS);
      assert CellKept(was, g, w, c, per, rows, delta);
    }
  }

  /** Every pool can finish: a worker left alone completes its rows and disturbs no other. */
  lemma FinishWorker(was: seq<int>, g: Pool, w: nat, per: nat, rows: nat, delta: seq<int>) returns (schedule: seq<nat>)
    requires |delta| == NUM_ORDERS && Inv(was, g, per, rows, delta) && w < |g.at|
    ensures var r := Run(g, schedule, per, rows, delta);
            && Inv(was, r, per, rows, delta)
            && r.at == g.at[w := FirstCell(w + 1, per, rows)]
  {
    schedule := [];
    var r := g;
    while r.at[w] < FirstCell(w + 1, per, rows)
      invariant r == Run(g, schedule, per, rows, delta)
      invariant Inv(was, r, per, rows, delta) && |r.at| == |g.at|
      invariant r.at == g.at[w := r.at[w]]
      decreases FirstCell(w + 1, per, rows) - r.at[w]
    {
      StepKeepsInv(was, r, w, per, rows, delta);
      r := Step(r, w, per, rows, delta);
      assert (schedule + [w])[..|schedule|] == schedule;
      schedule := schedule + [w];
    }
  }

  lemma {:induction false} RunAppend(g: Pool, a: seq<nat>, b: seq<nat>, per: nat, rows: nat, delta: seq<int>)
    requires |delta| == NUM_ORDERS
    ensures Run(g, a + b, per, rows, delta) == Run(Run(g, a, per, rows, delta), b, per, rows, delta)
  {
    if b == [] {
      assert a + b == a;
    } else {
      assert (a + b)[..|a + b| - 1] == a + b[..|b| - 1];
      RunAppend(g, a, b[..|b| - 1], per, rows, delta);
    }
  }

  lemma SomeScheduleFinishes(was: seq<int>, workers: nat, rows: nat, delta: seq<int>) returns (schedule: seq<nat>)
    requires workers > 0 && |delta| == NUM_ORDERS && |was| == rows * NUM_ORDERS
    ensures var per := PerWorker(rows, workers);
            AllDone(Run(Start(was, workers, per, rows), schedule, per, rows, delta), per, rows)
  {
    var per := PerWorker(rows, workers);
    var g := Start(was, workers, per, rows);
    schedule := [];
    RunKeepsInv(was, workers, [], per, rows, delta);
    for w := 0 to workers
      invariant var r := Run(g, schedule, per, rows, delta);
        && Inv(was, r, per, rows, delta) && |r.at| == workers
        && forall v: nat :: v < w ==> r.at[v] == FirstCell(v + 1, per, rows)
    {
      var more := FinishWorker(was, Run(g, schedule, per, rows, delta), w, per, rows, delta);
      RunAppend(g, schedule, more, per, rows, delta);
      schedule := schedule + more;
    }
  }
}
