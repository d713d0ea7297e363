/** A cycle executed by worker pools is a legal step of the engine model, so its lists obey the book. */
module ParallelCycle {
  import opened Common
  import opened Ranking
  import opened GoState
  import opened Naive
  import opened Headline
  import opened FlatMatrix
  import opened SeqFacts
  import opened Workers
  import opened GoEngine
  import K = KotlinPacked
  import P1 = ParallelPhase1
  import P2 = ParallelPhase2
  import opened Selection

  /** What one listed order contributes to a table. */
  function Contribution(meta: seq<OrderMeta>, row: seq<int>, o: nat, table: nat, now: int): seq<ScoreEntry>
    requires |meta| == |row| == NUM_ORDERS
  {
    if Eligible(meta, o, table, now) then [ScoreEntry(RankKey(row[o], meta[o].pbtDeadline, table, now), o)] else []
  }

  /** What the eligible orders of a pair contribute, in list order. */
  function PairOrders(s: State, pair: PairInfo, now: int): (orders: seq<seq<seq<ScoreEntry>>>)
    requires Shaped(s) && pair.ppsID < |s.rows|
    ensures |orders| == |At(s.binTags.fwd, pair.binTagID)|
    ensures forall i :: 0 <= i < |orders| ==> |orders[i]| == NUM_TABLES
  {
    var eligible := At(s.binTags.fwd, pair.binTagID);
    seq(|eligible|, i requires 0 <= i < |eligible| =>
      seq(NUM_TABLES, t requires 0 <= t < NUM_TABLES => Contribution(s.meta, s.rows[pair.ppsID], eligible[i], t, now)))
  }

  ghost function OrdersOf(s: State, now: int): (orders: seq<seq<seq<seq<ScoreEntry>>>>)
    requires Shaped(s) && PairsInside(s)
    ensures |orders| == |s.pairs|
    ensures forall p, i :: 0 <= p < |orders| && 0 <= i < |orders[p]| ==> |orders[p][i]| == NUM_TABLES
  {
    seq(|s.pairs|, p requires 0 <= p < |s.pairs| => assert s.pairs[p] in s.pairs; PairOrders(s, s.pairs[p], now))
  }

  ghost predicate Phase2Pool(job: P2.Job, s: State, now: int)
    requires Shaped(s) && PairsInside(s)
  {
    && job.orders == OrdersOf(s, now) && Selects(job.arr)
    && |job.stale| == job.workers && (forall w :: 0 <= w < job.workers ==> |job.stale[w]| == NUM_TABLES)
    && job.workers > 0 && job.per == PerWorker(|s.pairs|, job.workers)
  }

  lemma PoolIsValid(job: P2.Job, s: State, now: int)
    requires Shaped(s) && PairsInside(s) && Phase2Pool(job, s, now)
    ensures job.Valid()
  {
  }

  lemma NextContribution(s: State, pair: PairInfo, now: int, t: nat, i: nat)
    requires Shaped(s) && pair.ppsID < |s.rows| && t < NUM_TABLES && i < |At(s.binTags.fwd, pair.binTagID)|
    ensures var list, row := At(s.binTags.fwd, pair.binTagID), s.rows[pair.ppsID];
            Entries(s.meta, row, list[..i + 1], t, now) ==
            Entries(s.meta, row, list[..i], t, now) + PairOrders(s, pair, now)[i][t]
  {
    EntriesNext(s.meta, s.rows[pair.ppsID], At(s.binTags.fwd, pair.binTagID), i, t, now);
  }

  lemma {:induction false} SliceIsEntries(job: P2.Job, s: State, now: int, p: nat, t: nat, i: nat)
    requires Shaped(s) && PairsInside(s) && job.orders == OrdersOf(s, now)
    requires p < |s.pairs| && t < NUM_TABLES && i <= |job.orders[p]|
    ensures s.pairs[p].ppsID < |s.rows| && |job.orders[p]| == |At(s.binTags.fwd, s.pairs[p].binTagID)|
    ensures job.SliceUpTo(p, t, i) ==
            Entries(s.meta, s.rows[s.pairs[p].ppsID], At(s.binTags.fwd, s.pairs[p].binTagID)[..i], t, now)
  {
    assert s.pairs[p] in s.pairs;
    if i == 0 {
    } else {
      SliceIsEntries(job, s, now, p, t, i - 1);
      NextContribution(s, s.pairs[p], now, t, i - 1);
      assert job.orders[p] == PairOrders(s, s.pairs[p], now);
    }
  }

  /** A pool's slices are the entries the ranking of s starts from. */
  lemma WorkSlice(job: P2.Job, s: State, now: int, p: nat, t: nat)
    requires Shaped(s) && PairsInside(s) && Phase2Pool(job, s, now) && p < |s.pairs| && t < NUM_TABLES
    ensures s.pairs[p].ppsID < |s.rows| && job.Work(p, t) == PairEntries(s, s.pairs[p], t, now)
  {
    SliceIsEntries(job, s, now, p, t, |job.orders[p]|);
    var eligible := At(s.binTags.fwd, s.pairs[p].binTagID);
    assert eligible[..|eligible|] == eligible;
  }

  /** Any finished pool leaves the lists its routine makes of the pairs' entries. */
  lemma AnyScheduleRanks(job: P2.Job, s: State, now: int, schedule: seq<nat>)
    requires Shaped(s) && PairsInside(s) && Phase2Pool(job, s, now)
    requires job.AllDone(job.Run(schedule))
    ensures RankedBy(job.Run(schedule).buf, s, now, job.arr)
    ensures Ranked(job.Run(schedule).buf, s, now)
  {
    PoolIsValid(job, s, now);
    job.AnyScheduleFinalBuffer(schedule);
    forall p: nat, t: nat | p < |s.pairs| && t < NUM_TABLES
      ensures ListAt(job.FinalBuffer(), p, t) == ListOf(PairEntries(s, s.pairs[p], t, now), job.arr)
    {
      WorkSlice(job, s, now, p, t);
      job.FinalList(p, t);
    }
    RankedByIsRanked(job.FinalBuffer(), s, now, job.arr);
  }

  /** The routine determines the buffer. */
  lemma RankedByUnique(a: seq<int>, b: seq<int>, s: State, now: int, arr: EntrySort)
    requires Shaped(s) && PairsInside(s) && RankedBy(a, s, now, arr) && RankedBy(b, s, now, arr)
    ensures a == b
  {
    forall x: nat | x < |a| ensures a[x] == b[x] {
      var p, t, i := CellInList(a, |s.pairs|, x);
      var p', t', i' := CellInList(b, |s.pairs|, x);
    }
  }

  /** Every cell of a buffer belongs to one of its lists. */
  lemma CellInList(buf: seq<int>, n: nat, x: nat) returns (p: nat, t: nat, i: nat)
    requires |buf| == ListOffset(n, 0) && x < |buf|
    ensures p == x / (NUM_TABLES * TOP_K) && t == x / TOP_K % NUM_TABLES && i == x % TOP_K
    ensures p < n && t < NUM_TABLES && i < TOP_K
    ensures ListAt(buf, p, t)[i] == buf[x]
  {
    p, t, i := x / (NUM_TABLES * TOP_K), x / TOP_K % NUM_TABLES, x % TOP_K;
    P2.PartsAddr(x);
  }

  /**
   * Under any complete schedule a pool that selects as the engine does leaves the very buffer the
   * engine's own loop over workers returns.
   */
  lemma PoolEqualsLoop(job: P2.Job, s: State, now: int, schedule: seq<nat>, sort: EntrySort, buf: seq<int>)
    requires Shaped(s) && PairsInside(s) && Phase2Pool(job, s, now) && job.arr == ArrangeWith(sort)
    requires job.AllDone(job.Run(schedule))
    requires RankedBy(buf, s, now, ArrangeWith(sort))
    ensures job.Run(schedule).buf == buf
  {
    AnyScheduleRanks(job, s, now, schedule);
    RankedByUnique(job.Run(schedule).buf, buf, s, now, job.arr);
  }

  /** Phase 1 by any finished pool over the flat matrix computes the model's phase 1. */
  lemma AnyScheduleScores(s: State, flat: seq<int>, updates: seq<TPIDUpdate>, delta: seq<int>, workers: nat,
                          schedule: seq<nat>)
    requires Shaped(s) && updates != [] && workers > 0
    requires |flat| == |s.rows| * NUM_ORDERS && RowsOf(flat, |s.rows|) == s.rows
    requires |delta| == NUM_ORDERS
    requires forall o :: 0 <= o < NUM_ORDERS ==> delta[o] == Wrap32(Scatter(s.tpids.fwd, updates, o))
    requires var per := PerWorker(|s.rows|, workers);
             P1.AllDone(P1.Run(P1.Start(flat, workers, per, |s.rows|), schedule, per, |s.rows|, delta), per, |s.rows|)
    ensures var per := PerWorker(|s.rows|, workers);
            var done := P1.Run(P1.Start(flat, workers, per, |s.rows|), schedule, per, |s.rows|, delta).data;
            |done| == |s.rows| * NUM_ORDERS && RowsOf(done, |s.rows|) == Phase1(s, updates).rows
  {
    P1.AnyScheduleSweeps(flat, workers, schedule, |s.rows|, delta);
    SweptRows(Saturated, Diff, flat, |s.rows|, s.tpids.fwd, updates, delta);
  }

  // ---- Whole cycles ----

  /** A cycle ranked by a finished pool is a legal next step of any run. */
  lemma PooledCycleExtendsRun(numPPS: nat, pairs: seq<PairInfo>, acts: seq<Action>, m: State,
                              updates: seq<TPIDUpdate>, now: int, job: P2.Job, schedule: seq<nat>)
    requires WellKept(Init(numPPS, pairs)) && IsRun(Init(numPPS, pairs), acts, m)
    requires Phase2Pool(job, Prepared(m, updates, now), now) && job.AllDone(job.Run(schedule))
    ensures IsRun(Init(numPPS, pairs), acts + [Cycle(updates, now, job.Run(schedule).buf)], Prepared(m, updates, now))
  {
    var s, act := Prepared(m, updates, now), Cycle(updates, now, job.Run(schedule).buf);
    var acts' := acts + [act];
    StepKeepsShape(m, act);
    AnyScheduleRanks(job, s, now, schedule);
    assert acts'[..|acts'| - 1] == acts;
    assert IsRun(Init(numPPS, pairs), acts, m) && LegalStep(m, act, s);
  }

  /** The flat matrix of s and the delta vector of its updates. */
  ghost predicate Phase1Input(s: State, flat: seq<int>, updates: seq<TPIDUpdate>, delta: seq<int>)
    requires Shaped(s)
  {
    && |flat| == |s.rows| * NUM_ORDERS && RowsOf(flat, |s.rows|) == s.rows
    && |delta| == NUM_ORDERS
    && forall o :: 0 <= o < NUM_ORDERS ==> delta[o] == Wrap32(Scatter(s.tpids.fwd, updates, o))
  }

  /** What a pool of the given size leaves of the flat matrix under a schedule. */
  function Phase1Pool(flat: seq<int>, delta: seq<int>, rows: nat, workers: nat, schedule: seq<nat>): (g: P1.Pool)
    requires workers > 0 && |delta| == NUM_ORDERS
    ensures |g.data| == |flat|
  {
    var per := PerWorker(rows, workers);
    P1.Run(P1.Start(flat, workers, per, rows), schedule, per, rows, delta)
  }

  /** The state after the purge and a finished pool's Phase 1; without updates Phase 1 is skipped. */
  ghost function ScoredByPool(m: State, updates: seq<TPIDUpdate>, now: int, flat: seq<int>, delta: seq<int>,
                              workers: nat, schedule: seq<nat>): State
    requires Shaped(m) && workers > 0 && Phase1Input(Purge(m, now), flat, updates, delta)
  {
    var purged := Purge(m, now);
    var data := Phase1Pool(flat, delta, |purged.rows|, workers, schedule).data;
    if updates == [] then purged else purged.(rows := RowsOf(data, |purged.rows|))
  }

  lemma PoolPrepares(m: State, updates: seq<TPIDUpdate>, now: int, flat: seq<int>, delta: seq<int>, workers: nat,
                     schedule: seq<nat>)
    requires Shaped(m) && workers > 0 && Phase1Input(Purge(m, now), flat, updates, delta)
    requires P1.AllDone(Phase1Pool(flat, delta, |m.rows|, workers, schedule), PerWorker(|m.rows|, workers), |m.rows|)
    ensures ScoredByPool(m, updates, now, flat, delta, workers, schedule) == Prepared(m, updates, now)
  {
    if updates != [] {
      AnyScheduleScores(Purge(m, now), flat, updates, delta, workers, schedule);
    }
  }

  /**
   * End to end: after any run, a cycle whose scores are updated by one pool and whose ranking is done by
   * another, each of any size and under any complete schedule, extends the run, and every list it
   * publishes is the book's.
   */
  lemma PooledCyclePublishesBookLists(numPPS: nat, pairs: seq<PairInfo>, acts: seq<Action>, m: State,
                                      updates: seq<TPIDUpdate>, now: int,
                                      flat: seq<int>, delta: seq<int>, workers: nat, scoring: seq<nat>,
                                      job: P2.Job, ranking: seq<nat>, p: nat, table: nat)
    requires WellKept(Init(numPPS, pairs)) && IsRun(Init(numPPS, pairs), acts, m)
    requires workers > 0 && Phase1Input(Purge(m, now), flat, updates, delta)
    requires P1.AllDone(Phase1Pool(flat, delta, |m.rows|, workers, scoring), PerWorker(|m.rows|, workers), |m.rows|)
    requires var s := ScoredByPool(m, updates, now, flat, delta, workers, scoring);
             Shaped(s) && PairsInside(s) && Phase2Pool(job, s, now) && job.AllDone(job.Run(ranking))
    requires p < |m.pairs| && table < NUM_TABLES
    ensures var buf := job.Run(ranking).buf;
            var acts' := acts + [Cycle(updates, now, buf)];
            && |buf| == ListOffset(|m.pairs|, 0)
            && IsRun(Init(numPPS, pairs), acts', ScoredByPool(m, updates, now, flat, delta, workers, scoring))
            && BookList(ListAt(buf, p, table), NaiveRun(acts'), m.pairs[p].binTagID, table, now)
  {
    PoolPrepares(m, updates, now, flat, delta, workers, scoring);
    PooledCycleExtendsRun(numPPS, pairs, acts, m, updates, now, job, ranking);
    var acts' := acts + [Cycle(updates, now, job.Run(ranking).buf)];
    PublishedListsAreTopK(numPPS, pairs, acts', Prepared(m, updates, now), p, table);
  }

  /** Sorting a whole slice by score and id is one library sort. */
  lemma OrderSorts()
    ensures Sorts(K.InOrder, ScoreOf)
  {
    forall e
      ensures |K.InOrder(e)| == |e| && multiset(K.InOrder(e)) == multiset(e) && SortedBy(K.InOrder(e), ScoreOf, |e|)
    {
      var r := K.InOrder(e);
      K.InOrderFacts(e);
      SameBagSameLength(r, e);
      assert forall i, j :: 0 <= i < j < |r| ==> !K.Before(r[j], r[i]);
    }
  }

  /** The flat matrix and delta vector those pools start from always exist. */
  lemma Phase1InputExists(s: State, updates: seq<TPIDUpdate>) returns (flat: seq<int>, delta: seq<int>)
    requires Shaped(s)
    ensures Phase1Input(s, flat, updates, delta)
  {
    var cells := |s.rows| * NUM_ORDERS;
    flat := seq(cells, i requires 0 <= i < cells => s.rows[i / NUM_ORDERS][i % NUM_ORDERS]);
    delta := seq(NUM_ORDERS, o requires 0 <= o < NUM_ORDERS => Wrap32(Scatter(s.tpids.fwd, updates, o)));
    forall p | 0 <= p < |s.rows| ensures RowsOf(flat, |s.rows|)[p] == s.rows[p] {
      forall o | 0 <= o < NUM_ORDERS ensures RowsOf(flat, |s.rows|)[p][o] == s.rows[p][o] {
        RowCell(flat, |s.rows|, p, o);
      }
    }
  }

  /**
   * No run gets stuck: from every reachable state, for every update and time, pools of any size have
   * schedules that complete both phases of the next cycle.
   */
  lemma EveryRunCanCycle(numPPS: nat, pairs: seq<PairInfo>, acts: seq<Action>, m: State,
                         updates: seq<TPIDUpdate>, now: int, workers: nat)
    returns (flat: seq<int>, delta: seq<int>, scoring: seq<nat>, job: P2.Job, ranking: seq<nat>)
    requires WellKept(Init(numPPS, pairs)) && IsRun(Init(numPPS, pairs), acts, m) && workers > 0
    ensures Phase1Input(Purge(m, now), flat, updates, delta)
    ensures P1.AllDone(Phase1Pool(flat, delta, |m.rows|, workers, scoring), PerWorker(|m.rows|, workers), |m.rows|)
    ensures ScoredByPool(m, updates, now, flat, delta, workers, scoring) == Prepared(m, updates, now)
    ensures Phase2Pool(job, Prepared(m, updates, now), now) && job.workers == workers && job.AllDone(job.Run(ranking))
    ensures IsRun(Init(numPPS, pairs), acts + [Cycle(updates, now, job.Run(ranking).buf)], Prepared(m, updates, now))
  {
    var s := Prepared(m, updates, now);
    StepKeepsShape(m, Cycle(updates, now, []));
    flat, delta := Phase1InputExists(Purge(m, now), updates);
    scoring := P1.SomeScheduleFinishes(flat, workers, |m.rows|, delta);
    PoolPrepares(m, updates, now, flat, delta, workers, scoring);
    OrderSorts();
    ArrangeWithSelects(K.InOrder);
    var stale: seq<seq<seq<ScoreEntry>>> := seq(workers, _ => seq(NUM_TABLES, _ => []));
    job := P2.Job(OrdersOf(s, now), stale, workers, PerWorker(|s.pairs|, workers), ArrangeWith(K.InOrder));
    PoolIsValid(job, s, now);
    ranking := job.SomeScheduleFinishes();
    PooledCycleExtendsRun(numPPS, pairs, acts, m, updates, now, job, ranking);
  }
}
