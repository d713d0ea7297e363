/** The go-cgo engine as a value: what each operation does to registry, index, matrix and pairs. */
module GoState {
  import opened Common
  import opened SeqFacts
  import opened Ranking
  import opened Index

  datatype OrderMeta = OrderMeta(orderID: nat, requiredQty: real, pbtDeadline: int, active: bool, insertedAt: int)

  const NO_ORDER: OrderMeta := OrderMeta(0, 0.0, 0, false, 0)

  datatype State = State(meta: seq<OrderMeta>, tpids: Half, binTags: Half, rows: seq<seq<int>>, pairs: seq<PairInfo>)

  ghost predicate Shaped(s: State)
  {
    && |s.meta| == NUM_ORDERS
    && forall p :: 0 <= p < |s.rows| ==> |s.rows[p]| == NUM_ORDERS
  }

  function Init(numPPS: nat, pairs: seq<PairInfo>): State
  {
    State(seq(NUM_ORDERS, _ => NO_ORDER), EMPTY_HALF, EMPTY_HALF, seq(numPPS, _ => seq(NUM_ORDERS, _ => 0)), pairs)
  }

  // ---- Orders come and go ----

  function BaseScore(evt: OrderEvent): int { ClampI16(ToInt32(evt.baseScore * SCORE_SCALE)) }

  /** What a Go ingest writes; a base beyond 32 bits converts to the least integer and ends at the bottom. */
  lemma BaseIsScaled(evt: OrderEvent)
    ensures -2147483648.0 <= 100.0 * evt.baseScore < 2147483648.0 ==>
              ScaledBase(BaseScore(evt), evt.baseScore, -32767, 32767)
    ensures 100.0 * evt.baseScore >= 2147483648.0 || 100.0 * evt.baseScore <= -2147483649.0 ==> BaseScore(evt) == -32767
  {
    assert evt.baseScore * SCORE_SCALE == 100.0 * evt.baseScore;
  }

  /** Every row with v in column o. */
  function SetColumn(rows: seq<seq<int>>, o: nat, v: int): (r: seq<seq<int>>)
    requires forall p :: 0 <= p < |rows| ==> o < |rows[p]|
  {
    seq(|rows|, p requires 0 <= p < |rows| => rows[p][o := v])
  }

  /** The order registered, indexed, and given the score in every row. */
  function IngestWith(s: State, evt: OrderEvent, now: int, score: int): State
    requires Shaped(s) && evt.orderID < NUM_ORDERS
  {
    var o := evt.orderID;
    State(s.meta[o := OrderMeta(o, evt.requiredQty, evt.pbtDeadline, true, now)],
          Add(s.tpids, o, evt.tpids), Add(s.binTags, o, evt.binTags),
          SetColumn(s.rows, o, score), s.pairs)
  }

  function Ingest(s: State, evt: OrderEvent, now: int): State
    requires Shaped(s) && evt.orderID < NUM_ORDERS
  {
    IngestWith(s, evt, now, BaseScore(evt))
  }

  function Retired(m: OrderMeta): OrderMeta { m.(active := false, insertedAt := 0) }

  /** All the orders of gone retired at once, their index entries dropped and their columns zeroed. */
  function EvictSet(s: State, gone: set<nat>): State
    requires Shaped(s)
  {
    State(seq(|s.meta|, i requires 0 <= i < |s.meta| => if i in gone then Retired(s.meta[i]) else s.meta[i]),
          Drop(s.tpids, gone), Drop(s.binTags, gone),
          seq(|s.rows|, p requires 0 <= p < |s.rows| => ZeroedRow(s.rows[p], gone)), s.pairs)
  }

  function ZeroedRow(row: seq<int>, gone: set<nat>): seq<int>
  {
    seq(|row|, i requires 0 <= i < |row| => if i in gone then 0 else row[i])
  }

  predicate IsActive(s: State, o: nat) requires Shaped(s) { o < NUM_ORDERS && s.meta[o].active }

  function Evict(s: State, o: nat): State
    requires Shaped(s)
  {
    if IsActive(s, o) then EvictSet(s, {o}) else s
  }

  predicate HasExpired(m: OrderMeta, now: int)
  {
    m.active && m.insertedAt > 0 && now - m.insertedAt > ORDER_TTL
  }

  function Expired(s: State, now: int): set<nat>
    requires Shaped(s)
  {
    set i: nat | i < NUM_ORDERS && HasExpired(s.meta[i], now)
  }

  function Purge(s: State, now: int): State
    requires Shaped(s)
  {
    EvictSet(s, Expired(s, now))
  }

  // ---- Phase 1 ----

  function Diff(u: TPIDUpdate): int { ToInt32((u.newContrib - u.oldContrib) * SCORE_SCALE) }

  /** What the updates, converted by diff, add to order o when each is scattered through the list of its TPID. */
  ghost function ScatterBy(diff: TPIDUpdate -> int, fwd: map<nat, seq<nat>>, updates: seq<TPIDUpdate>, o: nat): int
  {
    if updates == [] then 0
    else
      var u := updates[|updates| - 1];
      ScatterBy(diff, fwd, updates[..|updates| - 1], o) + diff(u) * Count(At(fwd, u.tpid), o)
  }

  ghost function Scatter(fwd: map<nat, seq<nat>>, updates: seq<TPIDUpdate>, o: nat): int
  {
    ScatterBy(Diff, fwd, updates, o)
  }

  /** What the updates, converted by diff, add to an order that holds these TPIDs. */
  ghost function GatherBy(diff: TPIDUpdate -> int, tpids: seq<nat>, updates: seq<TPIDUpdate>): int
  {
    if updates == [] then 0
    else
      var u := updates[|updates| - 1];
      GatherBy(diff, tpids, updates[..|updates| - 1]) + diff(u) * Count(tpids, u.tpid)
  }

  ghost function Gather(tpids: seq<nat>, updates: seq<TPIDUpdate>): int
  {
    GatherBy(Diff, tpids, updates)
  }

  /** The 32-bit kernel on one cell. */
  function Saturated(score: int, delta: int): int { ClampI16(Wrap32(score + delta)) }

  /** Every row after the kernel cell has added the 32-bit scattered deltas. */
  ghost function RowsBy(cell: (int, int) -> int, diff: TPIDUpdate -> int, rows: seq<seq<int>>,
                        fwd: map<nat, seq<nat>>, updates: seq<TPIDUpdate>): seq<seq<int>>
  {
    seq(|rows|, p requires 0 <= p < |rows| =>
      seq(|rows[p]|, i requires 0 <= i < |rows[p]| => cell(rows[p][i], Wrap32(ScatterBy(diff, fwd, updates, i)))))
  }

  ghost function Phase1Rows(rows: seq<seq<int>>, fwd: map<nat, seq<nat>>, updates: seq<TPIDUpdate>): seq<seq<int>>
  {
    RowsBy(Saturated, Diff, rows, fwd, updates)
  }

  ghost function Phase1(s: State, updates: seq<TPIDUpdate>): State
  {
    if updates == [] then s else s.(rows := Phase1Rows(s.rows, s.tpids.fwd, updates))
  }

  /** The state a cycle ranks. */
  ghost function Prepared(s: State, updates: seq<TPIDUpdate>, now: int): State
    requires Shaped(s)
  {
    Phase1(Purge(s, now), updates)
  }

  // ---- Phase 2 ----

  predicate Passes(qty: real, deadline: int, table: nat, now: int)
  {
    if table == HEURISTIC then true
    else if table == LARGE then qty >= LARGE_QTY
    else if table == PBT then deadline > 0
    else deadline > 0 && deadline <= now + CRITICAL_CUTOFF
  }

  function RankKey(score: int, deadline: int, table: nat, now: int): int
  {
    if table == HEURISTIC || table == LARGE then score else Wrap32(now - deadline)
  }

  predicate Eligible(meta: seq<OrderMeta>, o: nat, table: nat, now: int)
    requires |meta| == NUM_ORDERS
  {
    o < NUM_ORDERS && meta[o].active && Passes(meta[o].requiredQty, meta[o].pbtDeadline, table, now)
  }

  /** The scratch slice a single pass over the eligible list fills for one table. */
  function Entries(meta: seq<OrderMeta>, row: seq<int>, eligible: seq<nat>, table: nat, now: int): (r: seq<ScoreEntry>)
    requires |meta| == |row| == NUM_ORDERS
    ensures |r| <= |eligible|
  {
    if eligible == [] then []
    else
      var o := eligible[|eligible| - 1];
      var front := Entries(meta, row, eligible[..|eligible| - 1], table, now);
      if Eligible(meta, o, table, now)
      then front + [ScoreEntry(RankKey(row[o], meta[o].pbtDeadline, table, now), o)]
      else front
  }

  lemma EntriesSnoc(meta: seq<OrderMeta>, row: seq<int>, front: seq<nat>, o: nat, table: nat, now: int)
    requires |meta| == |row| == NUM_ORDERS
    ensures Entries(meta, row, front + [o], table, now) ==
            if Eligible(meta, o, table, now)
            then Entries(meta, row, front, table, now) +
                 [ScoreEntry(RankKey(row[o], meta[o].pbtDeadline, table, now), o)]
            else Entries(meta, row, front, table, now)
  {
    var eligible := front + [o];
    assert eligible[..|eligible| - 1] == front;
  }

  ghost predicate PairsInside(s: State) { forall p :: p in s.pairs ==> p.ppsID < |s.rows| }

  function PairEntries(s: State, pair: PairInfo, table: nat, now: int): seq<ScoreEntry>
    requires Shaped(s) && pair.ppsID < |s.rows|
  {
    Entries(s.meta, s.rows[pair.ppsID], At(s.binTags.fwd, pair.binTagID), table, now)
  }

  // ---- The read buffer ----

  function ListOffset(pair: nat, table: nat): nat { (pair * NUM_TABLES + table) * TOP_K }

  function ListAt(buf: seq<int>, pair: nat, table: nat): (r: seq<int>)
    requires ListOffset(pair, table) + TOP_K <= |buf|
    ensures |r| == TOP_K
  {
    buf[ListOffset(pair, table)..ListOffset(pair, table) + TOP_K]
  }

  /** A full-length list: the ids, then -1 padding. */
  function Padded(ids: seq<int>): (r: seq<int>)
    requires |ids| <= TOP_K
    ensures |r| == TOP_K
    ensures r[..|ids|] == ids && forall i :: |ids| <= i < TOP_K ==> r[i] == -1
  {
    ids + seq(TOP_K - |ids|, _ => -1)
  }

  /** The first k ids of a list, stopping at an empty slot. */
  function Served(list: seq<int>, k: nat): seq<int>
  {
    if k == 0 || list == [] || list[0] == -1 then [] else [list[0]] + Served(list[1..], k - 1)
  }

  ghost predicate ShowsTop(list: seq<int>, entries: seq<ScoreEntry>)
  {
    exists top :: TopEntries(top, entries, TOP_K) && list == Padded(Ids(top))
  }

  /** buf holds a top list of every pair and table of s. */
  ghost predicate Ranked(buf: seq<int>, s: State, now: int)
    requires Shaped(s) && PairsInside(s)
  {
    && |buf| == ListOffset(|s.pairs|, 0)
    && forall p: nat, t: nat :: p < |s.pairs| && t < NUM_TABLES ==>
      ShowsTop(ListAt(buf, p, t), PairEntries(s, s.pairs[p], t, now))
  }
}
