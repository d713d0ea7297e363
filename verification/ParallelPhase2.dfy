/**
 * Phase 2 as a pool of workers, each with its own reused scratch, sharing one buffer. A step cuts a
 * worker's slices to length zero, appends what one order contributes, rearranges one table's slice, or
 * writes one id.
 */
module ParallelPhase2 {
  import opened Common
  import opened Ranking
  import opened GoState
  import opened Selection
  import opened Workers

  datatype Stage = Reset | Fill(next: nat) | Select(table: nat) | Copy(table: nat, next: nat)

  datatype Worker = Worker(pair: nat, stage: Stage, scratch: seq<seq<ScoreEntry>>)

  datatype Pool = Pool(buf: seq<int>, workers: seq<Worker>)

  /**
   * What the pool reads and never writes: what each eligible order of each pair contributes to each
   * table, what the scratch held before, the pairs owned by each worker, and the effect arr of
   * selecting and sorting.
   */
  datatype Job = Job(orders: seq<seq<seq<seq<ScoreEntry>>>>, stale: seq<seq<seq<ScoreEntry>>>,
                     workers: nat, per: nat, arr: EntrySort)
  {
    ghost predicate Valid()
    {
      && (forall p, i :: 0 <= p < |orders| && 0 <= i < |orders[p]| ==> |orders[p][i]| == NUM_TABLES)
      && |stale| == workers && (forall w :: 0 <= w < workers ==> |stale[w]| == NUM_TABLES)
      && (forall e {:trigger arr(e)} :: |arr(e)| == |e|)
    }

    /** The slice of pair p and table t after the first i eligible orders. */
    function SliceUpTo(p: nat, t: nat, i: nat): seq<ScoreEntry>
      requires p < |orders| && i <= |orders[p]|
    {
      if i == 0 then [] else SliceUpTo(p, t, i - 1) + (if t < |orders[p][i - 1]| then orders[p][i - 1][t] else [])
    }

    /** The whole slice of pair p and table t. */
    function Work(p: nat, t: nat): seq<ScoreEntry>
      requires p < |orders|
    {
      SliceUpTo(p, t, |orders[p]|)
    }

    /** The first pair of worker w. */
    function First(w: nat): (p: nat)
      ensures p <= |orders|
    {
      ChunkStart(w, per, |orders|)
    }

    /** The value the cell (p, t, i) ends with. */
    function Cell(p: nat, t: nat, i: nat): int
      requires Valid() && p < |orders| && t < NUM_TABLES
    {
      var e := Work(p, t);
      if i < Min(|e|, TOP_K) then arr(e)[i].id else -1
    }

    function Start(): Pool
      requires |stale| == workers
    {
      Pool(seq(ListOffset(|orders|, 0), _ => -1),
           seq(workers, w requires 0 <= w < workers => Worker(First(w), Reset, stale[w])))
    }

    /** The worker after it has finished a table. */
    function NextTable(k: Worker, t: nat): Worker
    {
      if t + 1 < NUM_TABLES then k.(stage := Select(t + 1)) else k.(pair := k.pair + 1, stage := Reset)
    }

    predicate Busy(g: Pool, w: nat)
    {
      && w < |g.workers| && g.workers[w].pair < First(w + 1)
      && var k := g.workers[w];
      match k.stage
      case Reset => true
      case Fill(i) => i < |orders[k.pair]| ==> |k.scratch| == |orders[k.pair][i]|
      case Select(t) => t < |k.scratch|
      case Copy(t, i) => t < |k.scratch| && i < |k.scratch[t]| && Addr(k.pair, t, i) < |g.buf|
    }

    function Step(g: Pool, w: nat): (r: Pool)
      ensures |r.buf| == |g.buf| && |r.workers| == |g.workers|
    {
      if !Busy(g, w) then g
      else
        var k := g.workers[w];
        match k.stage
        case Reset =>
          var emptied := seq(|k.scratch|, t requires 0 <= t < |k.scratch| => k.scratch[t][..0]);
          Pool(g.buf, g.workers[w := k.(stage := Fill(0), scratch := emptied)])
        case Fill(i) =>
          if i < |orders[k.pair]| then
            var grown := seq(|k.scratch|, t requires 0 <= t < |k.scratch| => k.scratch[t] + orders[k.pair][i][t]);
            Pool(g.buf, g.workers[w := k.(stage := Fill(i + 1), scratch := grown)])
          else Pool(g.buf, g.workers[w := k.(stage := Select(0))])
        case Select(t) =>
          var k' := k.(scratch := k.scratch[t := arr(k.scratch[t])]);
          Pool(g.buf, g.workers[w := if |k.scratch[t]| == 0 then NextTable(k', t) else k'.(stage := Copy(t, 0))])
        case Copy(t, i) =>
          var k' := if i + 1 < Min(|k.scratch[t]|, TOP_K) then k.(stage := Copy(t, i + 1)) else NextTable(k, t);
          Pool(g.buf[Addr(k.pair, t, i) := k.scratch[t][i].id], g.workers[w := k'])
    }

    function Run(schedule: seq<nat>): Pool
      requires |stale| == workers
    {
      if schedule == [] then Start() else Step(Run(schedule[..|schedule| - 1]), schedule[|schedule| - 1])
    }

    predicate AllDone(g: Pool)
    {
      forall w: nat :: w < |g.workers| ==> g.workers[w].pair == First(w + 1)
    }

    // ---- The invariant ----

    ghost predicate WorkerOk(k: Worker, w: nat)
      requires Valid()
    {
      && First(w) <= k.pair <= First(w + 1) && |k.scratch| == NUM_TABLES
      && if k.pair == First(w + 1) then k.stage == Reset
         else match k.stage
              case Reset => true
              case Fill(i) => i <= |orders[k.pair]| && FilledTo(k, i)
              case Select(t) => t < NUM_TABLES && Untouched(k, t)
              case Copy(t, i) =>
                && t < NUM_TABLES && Untouched(k, t + 1)
                && i < Min(|Work(k.pair, t)|, TOP_K) && k.scratch[t] == arr(Work(k.pair, t))
    }

    /** Every slice holds what the first i orders contribute to it, and nothing older. */
    ghost predicate FilledTo(k: Worker, i: nat)
      requires k.pair < |orders| && i <= |orders[k.pair]| && |k.scratch| == NUM_TABLES
    {
      forall u: nat :: u < NUM_TABLES ==> k.scratch[u] == SliceUpTo(k.pair, u, i)
    }

    /** The slices from table t on are as the pass over the pair left them. */
    ghost predicate Untouched(k: Worker, t: nat)
      requires Valid() && k.pair < |orders| && |k.scratch| == NUM_TABLES
    {
      forall u: nat :: t <= u < NUM_TABLES ==> k.scratch[u] == Work(k.pair, u)
    }

    /** Worker k is past cell (p, t, i) of its own range. */
    predicate Past(k: Worker, p: nat, t: nat, i: nat)
    {
      p < k.pair || (p == k.pair && match k.stage
                                    case Reset => false
                                    case Fill(_) => false
                                    case Select(t') => t < t'
                                    case Copy(t', i') => t < t' || (t == t' && i < i'))
    }

    ghost predicate CellOk(g: Pool, w: nat, p: nat, t: nat, i: nat)
      requires Valid() && |g.buf| == ListOffset(|orders|, 0) && w < |g.workers|
    {
      First(w) <= p < First(w + 1) && t < NUM_TABLES && i < TOP_K ==>
        g.buf[Addr(p, t, i)] == if Past(g.workers[w], p, t, i) then Cell(p, t, i) else -1
    }

    ghost predicate Inv(g: Pool)
      requires Valid()
    {
      && |g.buf| == ListOffset(|orders|, 0) && |g.workers| == workers
      && (forall w: nat :: w < workers ==> WorkerOk(g.workers[w], w))
      && forall w: nat, p: nat, t: nat, i: nat :: w < workers ==> CellOk(g, w, p, t, i)
    }

    lemma Separate(v: nat, w: nat)
      requires Valid() && v != w
      ensures First(v + 1) <= First(w) || First(w + 1) <= First(v)
    {
      if v < w {
        ChunkMonotone(v + 1, w, per, |orders|);
      } else {
        ChunkMonotone(w + 1, v, per, |orders|);
      }
    }

    lemma StepKeepsWorker(g: Pool, w: nat)
      requires Valid() && Inv(g) && w < workers
      ensures WorkerOk(Step(g, w).workers[w], w)
    {
      assert WorkerOk(g.workers[w], w);
    }

    lemma StepKeepsCell(g: Pool, w: nat, v: nat, p: nat, t: nat, i: nat)
      requires Valid() && Inv(g) && w < workers && v < workers
      ensures CellOk(Step(g, w), v, p, t, i)
    {
      assert CellOk(g, v, p, t, i) && WorkerOk(g.workers[w], w);
      if v != w {
        Separate(v, w);
      }
    }

    lemma StepKeepsInv(g: Pool, w: nat)
      requires Valid() && Inv(g)
      ensures Inv(Step(g, w))
    {
      if w < workers {
        StepKeepsWorker(g, w);
        forall v: nat, p: nat, t: nat, i: nat | v < workers ensures CellOk(Step(g, w), v, p, t, i) {
          StepKeepsCell(g, w, v, p, t, i);
        }
      }
    }

    lemma {:induction false} RunKeepsInv(schedule: seq<nat>)
      requires Valid()
      ensures Inv(Run(schedule))
    {
      if schedule == [] {
        forall w: nat ensures First(w) <= First(w + 1) {
          ChunkMonotone(w, w + 1, per, |orders|);
        }
      } else {
        RunKeepsInv(schedule[..|schedule| - 1]);
        StepKeepsInv(Run(schedule[..|schedule| - 1]), schedule[|schedule| - 1]);
      }
    }

    /** The whole buffer, cell by cell, as a function of the work alone. */
    function FinalBuffer(): (r: seq<int>)
      requires Valid()
    {
      seq(ListOffset(|orders|, 0), a requires 0 <= a < ListOffset(|orders|, 0) =>
        Cell(a / (NUM_TABLES * TOP_K), a / TOP_K % NUM_TABLES, a % TOP_K))
    }

    lemma FinalList(p: nat, t: nat)
      requires Valid() && p < |orders| && t < NUM_TABLES
      ensures var k := Min(|Work(p, t)|, TOP_K);
              ListAt(FinalBuffer(), p, t) == Padded(Ids(arr(Work(p, t))[..k]))
    {
      var list, ids := ListAt(FinalBuffer(), p, t), Ids(arr(Work(p, t))[..Min(|Work(p, t)|, TOP_K)]);
      forall i: nat | i < TOP_K ensures list[i] == Padded(ids)[i] {
        var a := Addr(p, t, i);
        AddrParts(p, t, i);
        assert list[i] == FinalBuffer()[a];
      }
    }

    /** Once every worker is done the buffer is the final one, whatever the schedule was. */
    lemma AnyScheduleFinalBuffer(schedule: seq<nat>)
      requires Valid() && workers > 0 && per == PerWorker(|orders|, workers)
      requires AllDone(Run(schedule))
      ensures Run(schedule).buf == FinalBuffer()
    {
      var g := Run(schedule);
      RunKeepsInv(schedule);
      forall a: nat | a < |g.buf| ensures g.buf[a] == FinalBuffer()[a] {
        var p, t, i := a / (NUM_TABLES * TOP_K), a / TOP_K % NUM_TABLES, a % TOP_K;
        PartsAddr(a);
        var w := OneOwner(|orders|, workers, p);
        assert Owns(w, per, |orders|, p);
        assert CellOk(g, w, p, t, i);
      }
    }

    // ---- Every pool can finish ----

    /** Steps left on pair p, at most. */
    function StageLeft(p: nat, stage: Stage): int
    {
      var fill, rest := if p < |orders| then |orders[p]| else 0, NUM_TABLES * (TOP_K + 1);
      match stage
      case Reset => fill + rest + 2
      case Fill(i) => fill - i + rest + 1
      case Select(t) => (NUM_TABLES - t) * (TOP_K + 1)
      case Copy(t, i) => (NUM_TABLES - t) * (TOP_K + 1) - 1 - i
    }

    lemma StepAdvances(g: Pool, w: nat)
      requires Valid() && Inv(g) && w < workers && g.workers[w].pair < First(w + 1)
      ensures var k, k' := g.workers[w], Step(g, w).workers[w];
              && Step(g, w).workers == g.workers[w := k']
              && (|| k'.pair == k.pair + 1
                  || (k'.pair == k.pair && 0 <= StageLeft(k'.pair, k'.stage) < StageLeft(k.pair, k.stage)))
    {
      assert WorkerOk(g.workers[w], w);
    }

    ghost function RunFrom(g: Pool, schedule: seq<nat>): Pool
    {
      if schedule == [] then g else Step(RunFrom(g, schedule[..|schedule| - 1]), schedule[|schedule| - 1])
    }

    lemma {:induction false} RunFromAppend(a: seq<nat>, b: seq<nat>)
      requires |stale| == workers
      ensures Run(a + b) == RunFrom(Run(a), b)
    {
      if b == [] {
        assert a + b == a;
      } else {
        assert (a + b)[..|a + b| - 1] == a + b[..|b| - 1];
        RunFromAppend(a, b[..|b| - 1]);
      }
    }

    lemma FinishWorker(g: Pool, w: nat) returns (schedule: seq<nat>)
      requires Valid() && Inv(g) && w < workers
      ensures var r := RunFrom(g, schedule);
              Inv(r) && r.workers == g.workers[w := r.workers[w]] && r.workers[w].pair == First(w + 1)
    {
      schedule := [];
      var r := g;
      assert WorkerOk(g.workers[w], w);
      while r.workers[w].pair < First(w + 1)
        invariant r == RunFrom(g, schedule) && Inv(r)
        invariant r.workers == g.workers[w := r.workers[w]]
        decreases First(w + 1) - r.workers[w].pair, StageLeft(r.workers[w].pair, r.workers[w].stage)
      {
        StepKeepsInv(r, w);
        StepAdvances(r, w);
        r := Step(r, w);
        assert WorkerOk(r.workers[w], w);
        assert (schedule + [w])[..|schedule|] == schedule;
        schedule := schedule + [w];
      }
    }

    lemma SomeScheduleFinishes() returns (schedule: seq<nat>)
      requires Valid()
      ensures AllDone(Run(schedule))
    {
      schedule := [];
      RunKeepsInv([]);
      for w := 0 to workers
        invariant Inv(Run(schedule))
        invariant forall v: nat :: v < w ==> Run(schedule).workers[v].pair == First(v + 1)
      {
        var more := FinishWorker(Run(schedule), w);
        RunFromAppend(schedule, more);
        schedule := schedule + more;
      }
    }
  }

  function Addr(p: nat, t: nat, i: nat): nat { ListOffset(p, t) + i }

  lemma AddrParts(p: nat, t: nat, i: nat)
    requires t < NUM_TABLES && i < TOP_K
    ensures var a := Addr(p, t, i);
            a / (NUM_TABLES * TOP_K) == p && a / TOP_K % NUM_TABLES == t && a % TOP_K == i
  {
  }

  /** The pair, table and position of a cell. */
  lemma PartsAddr(a: nat)
    ensures Addr(a / (NUM_TABLES * TOP_K), a / TOP_K % NUM_TABLES, a % TOP_K) == a
  {
    var p, q := a / (NUM_TABLES * TOP_K), a / TOP_K;
    assert NUM_TABLES * p <= q < NUM_TABLES * p + NUM_TABLES;
    assert q % NUM_TABLES == q - NUM_TABLES * p;
    assert ListOffset(p, q % NUM_TABLES) == q * TOP_K;
  }

  /**
   * Pools of any size, with any schedules and whatever their scratch held before, agree; a pool of one
   * worker is the sequential pass.
   */
  lemma PoolsAgree(a: Job, aSchedule: seq<nat>, b: Job, bSchedule: seq<nat>)
    requires a.Valid() && b.Valid() && a.orders == b.orders && a.arr == b.arr
    requires a.workers > 0 && a.per == PerWorker(|a.orders|, a.workers) && a.AllDone(a.Run(aSchedule))
    requires b.workers > 0 && b.per == PerWorker(|b.orders|, b.workers) && b.AllDone(b.Run(bSchedule))
    ensures a.Run(aSchedule).buf == b.Run(bSchedule).buf
  {
    a.AnyScheduleFinalBuffer(aSchedule);
    b.AnyScheduleFinalBuffer(bSchedule);
    forall p: nat, t: nat | p < |a.orders| ensures a.Work(p, t) == b.Work(p, t) {
      SameSlice(a, b, p, t, |a.orders[p]|);
    }
    assert a.FinalBuffer() == b.FinalBuffer();
  }

  lemma {:induction false} SameSlice(a: Job, b: Job, p: nat, t: nat, i: nat)
    requires a.orders == b.orders && p < |a.orders| && i <= |a.orders[p]|
    ensures a.SliceUpTo(p, t, i) == b.SliceUpTo(p, t, i)
  {
    if i == 0 {
    } else {
      SameSlice(a, b, p, t, i - 1);
    }
  }
}
