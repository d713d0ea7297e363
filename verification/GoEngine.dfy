/** The go-cgo engine in its own form: arrays, maps and loops, proved against the value model. */
module GoEngine {
  import opened Common
  import opened SeqFacts
  import opened Ranking
  import opened Selection
  import opened Index
  import opened GoIndex
  import opened GoState
  import opened Naive
  import opened Headline
  import opened GoLaws
  import opened FlatMatrix
  import opened Workers
  import opened Topology
  import L = GoLifecycle

  class PPSMatrix {
    const NumPPS: nat
    const data: array<int>

    ghost predicate Valid() { data.Length == NumPPS * NUM_ORDERS }

    constructor (numPPS: nat)
      ensures Valid() && NumPPS == numPPS && fresh(data)
      ensures data[..] == seq(numPPS * NUM_ORDERS, _ => 0)
    {
      NumPPS := numPPS;
      data := new int[numPPS * NUM_ORDERS](_ => 0);
    }

    /** Entry o of row p. */
    function Score(p: nat, o: nat): (v: int)
      requires Valid() && p < NumPPS && o < NUM_ORDERS
      reads data
      ensures v == RowsOf(data[..], NumPPS)[p][o]
    {
      RowCell(data[..], NumPPS, p, o);
      data[p * NUM_ORDERS + o]
    }

    /** Writes v into column o of every row. */
    method WriteColumn(o: nat, v: int)
      requires Valid() && o < NUM_ORDERS
      modifies data
      ensures RowsOf(data[..], NumPPS) == SetColumn(RowsOf(old(data[..]), NumPPS), o, v)
    {
      ghost var was := data[..];
      for p := 0 to NumPPS
        invariant data[..] == ColumnSet(was, o, v, p)
      {
        RowCell(was, NumPPS, p, o);
        data[p * NUM_ORDERS + o] := v;
        assert data[..] == ColumnSet(was, o, v, p + 1);
      }
      ColumnSetRows(was, NumPPS, o, v);
    }

    /** evict_order_scores: zeroes the order's cell in every row. */
    method EvictOrder(orderID: nat)
      requires Valid()
      modifies data
      ensures RowsOf(data[..], NumPPS) ==
              if orderID < NUM_ORDERS then SetColumn(RowsOf(old(data[..]), NumPPS), orderID, 0)
              else RowsOf(old(data[..]), NumPPS)
    {
      if orderID >= NUM_ORDERS {
        return;
      }
      WriteColumn(orderID, 0);
    }

    /** The kernel's inner loop: one row, from position row. */
    method UpdateRow(row: nat, delta: array<int>)
      requires Valid() && delta.Length == NUM_ORDERS && delta != data
      requires row % NUM_ORDERS == 0 && row + NUM_ORDERS <= data.Length
      modifies data
      ensures data[..] == Swept(old(data[..]), row, row + NUM_ORDERS, delta[..])
    {
      ghost var was := data[..];
      for o := 0 to NUM_ORDERS
        invariant data[..] == Swept(was, row, row + o, delta[..])
      {
        ghost var before := data[..];
        SweepCell(Saturated, was, before, row, row + o, delta[..]);
        assert (row + o) % NUM_ORDERS == o;
        var v := Wrap32(data[row + o] + delta[o]);
        if v > 32767 {
          v := 32767;
        }
        if v < -32767 {
          v := -32767;
        }
        data[row + o] := v;
        assert data[..] == before[row + o := v];
      }
    }

    /** update_all_scores_i16 on the rows startRow .. startRow + numRows. */
    method UpdateRowRange(startRow: nat, numRows: nat, delta: array<int>)
      requires Valid() && startRow + numRows <= NumPPS
      requires delta.Length == NUM_ORDERS && delta != data
      modifies data
      ensures data[..] == Swept(old(data[..]), startRow * NUM_ORDERS, (startRow + numRows) * NUM_ORDERS, delta[..])
    {
      ghost var was, first := data[..], startRow * NUM_ORDERS;
      for p := 0 to numRows
        invariant data[..] == Swept(was, first, (startRow + p) * NUM_ORDERS, delta[..])
      {
        UpdateRow((startRow + p) * NUM_ORDERS, delta);
        SweptTwice(Saturated, was, first, (startRow + p) * NUM_ORDERS, (startRow + p + 1) * NUM_ORDERS, delta[..]);
      }
    }
  }

  // ---- The registry ----

  /** The engine value held by these objects. */
  ghost function ViewOf(registry: OrderRegistry, indexes: InvertedIndexes, matrix: PPSMatrix,
                        pairs: seq<PairInfo>): (s: State)
    requires registry.Valid() && matrix.Valid()
    reads registry.Meta, indexes, matrix.data
    ensures Shaped(s) && |s.rows| == matrix.NumPPS
  {
    State(registry.Meta[..], indexes.TPIDs(), indexes.BinTags(), RowsOf(matrix.data[..], matrix.NumPPS), pairs)
  }

  ghost predicate SlotsOwnIDs(meta: seq<OrderMeta>)
  {
    forall i :: 0 <= i < |meta| && meta[i].active ==> meta[i].orderID == i
  }

  function ExpiredBelow(s: State, now: int, hi: nat): set<nat>
    requires Shaped(s) && hi <= NUM_ORDERS
  {
    set i: nat | i < hi && HasExpired(s.meta[i], now)
  }

  /** The three in-place writes of an eviction, together. */
  lemma RetireOne(s: State, o: nat)
    requires Shaped(s) && o < NUM_ORDERS
    ensures EvictSet(s, {o}) ==
            State(s.meta[o := Retired(s.meta[o])], Drop(s.tpids, {o}), Drop(s.binTags, {o}),
                  SetColumn(s.rows, o, 0), s.pairs)
  {
    forall p | 0 <= p < |s.rows| ensures ZeroedRow(s.rows[p], {o}) == s.rows[p][o := 0] {
    }
    SameMatrix(EvictSet(s, {o}).rows, SetColumn(s.rows, o, 0));
    assert EvictSet(s, {o}).meta == s.meta[o := Retired(s.meta[o])];
  }

  class OrderRegistry {
    const Meta: array<OrderMeta>

    ghost predicate Valid() { Meta.Length == NUM_ORDERS }

    constructor ()
      ensures Valid() && fresh(Meta)
      ensures Meta[..] == seq(NUM_ORDERS, _ => NO_ORDER)
    {
      Meta := new OrderMeta[NUM_ORDERS](_ => NO_ORDER);
    }

    /** Stores the metadata in its own slot; an id outside the range is silently dropped. */
    method Upsert(m: OrderMeta)
      requires Valid()
      modifies Meta
      ensures Meta[..] == if m.orderID < NUM_ORDERS then old(Meta[..])[m.orderID := m] else old(Meta[..])
    {
      if m.orderID >= NUM_ORDERS {
        return;
      }
      Meta[m.orderID] := m;
    }

    method Retire(slot: nat, orderID: nat, indexes: InvertedIndexes, matrix: PPSMatrix, ghost pairs: seq<PairInfo>)
      requires Valid() && matrix.Valid() && indexes.Valid()
      requires orderID == slot < NUM_ORDERS
      modifies Meta, indexes, matrix.data
      ensures indexes.Valid()
      ensures ViewOf(this, indexes, matrix, pairs) == EvictSet(old(ViewOf(this, indexes, matrix, pairs)), {slot})
    {
      RetireOne(ViewOf(this, indexes, matrix, pairs), slot);
      Meta[slot] := Retired(Meta[slot]);
      indexes.RemoveOrder(orderID);
      matrix.EvictOrder(orderID);
    }

    /** Evicts an active order; any other id is ignored. */
    method EvictOrder(orderID: nat, indexes: InvertedIndexes, matrix: PPSMatrix, ghost pairs: seq<PairInfo>)
      requires Valid() && matrix.Valid() && indexes.Valid()
      modifies Meta, indexes, matrix.data
      ensures indexes.Valid()
      ensures ViewOf(this, indexes, matrix, pairs) == Evict(old(ViewOf(this, indexes, matrix, pairs)), orderID)
    {
      if orderID >= NUM_ORDERS || !Meta[orderID].active {
        return;
      }
      Retire(orderID, orderID, indexes, matrix, pairs);
    }

    /** One sweep over the slots, evicting those whose time to live has passed. */
    method PurgeExpired(nowSecs: int, indexes: InvertedIndexes, matrix: PPSMatrix, ghost pairs: seq<PairInfo>)
      requires Valid() && matrix.Valid() && indexes.Valid()
      requires SlotsOwnIDs(Meta[..])
      modifies Meta, indexes, matrix.data
      ensures indexes.Valid()
      ensures ViewOf(this, indexes, matrix, pairs) == Purge(old(ViewOf(this, indexes, matrix, pairs)), nowSecs)
    {
      ghost var was := ViewOf(this, indexes, matrix, pairs);
      EvictNone(was);
      assert ExpiredBelow(was, nowSecs, 0) == {};
      for i := 0 to NUM_ORDERS
        invariant indexes.Valid()
        invariant ViewOf(this, indexes, matrix, pairs) == EvictSet(was, ExpiredBelow(was, nowSecs, i))
      {
        ghost var gone := ExpiredBelow(was, nowSecs, i);
        var m := Meta[i];
        assert m == was.meta[i];
        if m.active && m.insertedAt > 0 && nowSecs - m.insertedAt > ORDER_TTL {
          Retire(i, m.orderID, indexes, matrix, pairs);
          EvictTwice(was, gone, {i});
          assert ExpiredBelow(was, nowSecs, i + 1) == gone + {i};
        } else {
          assert ExpiredBelow(was, nowSecs, i + 1) == gone;
        }
      }
      assert ExpiredBelow(was, nowSecs, NUM_ORDERS) == Expired(was, nowSecs);
    }
  }

  /** Applies an order event to registry, index and every matrix row. */
  method IngestOrder(evt: OrderEvent, registry: OrderRegistry, indexes: InvertedIndexes, matrix: PPSMatrix,
                     nowSecs: int, ghost pairs: seq<PairInfo>)
    requires registry.Valid() && matrix.Valid() && indexes.Valid()
    requires evt.orderID < NUM_ORDERS
    modifies registry.Meta, indexes, matrix.data
    ensures indexes.Valid()
    ensures ViewOf(registry, indexes, matrix, pairs) ==
            Ingest(old(ViewOf(registry, indexes, matrix, pairs)), evt, nowSecs)
    ensures -2147483648.0 <= 100.0 * evt.baseScore < 2147483648.0 ==>
              forall p :: 0 <= p < |ViewOf(registry, indexes, matrix, pairs).rows| ==>
                ScaledBase(ViewOf(registry, indexes, matrix, pairs).rows[p][evt.orderID], evt.baseScore, -32767, 32767)
  {
    BaseIsScaled(evt);
    ghost var was := ViewOf(registry, indexes, matrix, pairs);
    var meta := OrderMeta(evt.orderID, evt.requiredQty, evt.pbtDeadline, true, nowSecs);
    if registry.Meta[evt.orderID].active {
      indexes.RemoveOrder(evt.orderID);
    }
    AddAfterDrop(was.tpids, evt.orderID, evt.tpids);
    AddAfterDrop(was.binTags, evt.orderID, evt.binTags);
    registry.Upsert(meta);
    indexes.AddOrder(evt.orderID, evt.tpids, evt.binTags);
    matrix.WriteColumn(evt.orderID, ClampI16(ToInt32(evt.baseScore * SCORE_SCALE)));
  }

  // ---- Phase 1 ----

  /** The delta of order o after the first m ids of a list have been credited with diff. */
  ghost function Credited(base: int, diff: int, list: seq<nat>, m: nat, o: nat): int
    requires m <= |list|
  {
    Wrap32(base + diff * Count(list[..m], o))
  }

  lemma CreditStep(base: int, diff: int, list: seq<nat>, m: nat, o: nat)
    requires m < |list|
    ensures Credited(base, diff, list, m + 1, o) ==
            if list[m] == o then Wrap32(Credited(base, diff, list, m, o) + diff) else Credited(base, diff, list, m, o)
  {
    assert list[..m + 1] == list[..m] + [list[m]];
    var c := Count(list[..m], o);
    if list[m] == o {
      assert diff * (c + 1) == diff * c + diff;
      Wrap32Add(base + diff * c, diff);
    }
  }

  lemma ScatterStep(diff: TPIDUpdate -> int, fwd: map<nat, seq<nat>>, updates: seq<TPIDUpdate>, j: nat, o: nat)
    requires j < |updates|
    ensures ScatterBy(diff, fwd, updates[..j + 1], o) ==
            ScatterBy(diff, fwd, updates[..j], o) + diff(updates[j]) * Count(At(fwd, updates[j].tpid), o)
  {
    assert updates[..j + 1][..j] == updates[..j];
  }

  ghost predicate AllCredited(was: seq<int>, cur: seq<int>, diff: int, list: seq<nat>, m: nat)
    requires m <= |list|
  {
    && |was| == |cur| == NUM_ORDERS
    && forall o :: 0 <= o < NUM_ORDERS ==> cur[o] == Credited(was[o], diff, list, m, o)
  }

  lemma NoneCredited(was: seq<int>, diff: int, list: seq<nat>)
    requires |was| == NUM_ORDERS && forall o :: 0 <= o < NUM_ORDERS ==> Wrap32(was[o]) == was[o]
    ensures AllCredited(was, was, diff, list, 0)
  {
    forall o | 0 <= o < NUM_ORDERS ensures was[o] == Credited(was[o], diff, list, 0, o) {
      assert list[..0] == [];
      assert Count(list[..0], o) == 0;
    }
  }

  lemma AllCreditedStep(was: seq<int>, cur: seq<int>, diff: int, list: seq<nat>, m: nat)
    requires m < |list| && AllCredited(was, cur, diff, list, m)
    ensures var oid := list[m];
            AllCredited(was, if oid < NUM_ORDERS then cur[oid := Wrap32(cur[oid] + diff)] else cur, diff, list, m + 1)
  {
    var oid := list[m];
    var next := if oid < NUM_ORDERS then cur[oid := Wrap32(cur[oid] + diff)] else cur;
    forall o | 0 <= o < NUM_ORDERS ensures next[o] == Credited(was[o], diff, list, m + 1, o) {
      CreditStep(was[o], diff, list, m, o);
    }
  }

  /** Adds diff to the delta of each listed order, once per occurrence. */
  method CreditList(delta: array<int>, diff: int, list: seq<nat>)
    requires delta.Length == NUM_ORDERS
    requires forall o :: 0 <= o < NUM_ORDERS ==> Wrap32(delta[o]) == delta[o]
    modifies delta
    ensures AllCredited(old(delta[..]), delta[..], diff, list, |list|)
  {
    ghost var was := delta[..];
    NoneCredited(was, diff, list);
    for m := 0 to |list|
      invariant AllCredited(was, delta[..], diff, list, m)
    {
      AllCreditedStep(was, delta[..], diff, list, m);
      var oid := list[m];
      if oid < NUM_ORDERS {
        delta[oid] := Wrap32(delta[oid] + diff);
      }
    }
  }

  ghost predicate Scattered(delta: seq<int>, diff: TPIDUpdate -> int, fwd: map<nat, seq<nat>>, updates: seq<TPIDUpdate>)
  {
    && |delta| == NUM_ORDERS
    && forall o :: 0 <= o < NUM_ORDERS ==> delta[o] == Wrap32(ScatterBy(diff, fwd, updates, o))
  }

  lemma ScatteredStep(was: seq<int>, cur: seq<int>, diff: TPIDUpdate -> int, fwd: map<nat, seq<nat>>,
                      updates: seq<TPIDUpdate>, j: nat)
    requires j < |updates| && Scattered(was, diff, fwd, updates[..j])
    requires var list := At(fwd, updates[j].tpid); AllCredited(was, cur, diff(updates[j]), list, |list|)
    ensures Scattered(cur, diff, fwd, updates[..j + 1])
  {
    var u := updates[j];
    var list := At(fwd, u.tpid);
    forall o | 0 <= o < NUM_ORDERS ensures cur[o] == Wrap32(ScatterBy(diff, fwd, updates[..j + 1], o)) {
      assert list[..|list|] == list;
      ScatterStep(diff, fwd, updates, j, o);
      Wrap32Add(ScatterBy(diff, fwd, updates[..j], o), diff(u) * Count(list, o));
    }
  }

  lemma ScatteredSkip(cur: seq<int>, diff: TPIDUpdate -> int, fwd: map<nat, seq<nat>>, updates: seq<TPIDUpdate>, j: nat)
    requires j < |updates| && Scattered(cur, diff, fwd, updates[..j])
    requires diff(updates[j]) == 0 || updates[j].tpid !in fwd
    ensures Scattered(cur, diff, fwd, updates[..j + 1])
  {
    forall o | 0 <= o < NUM_ORDERS ensures cur[o] == Wrap32(ScatterBy(diff, fwd, updates[..j + 1], o)) {
      ScatterStep(diff, fwd, updates, j, o);
    }
  }

  /** The dense delta vector of an update, scattered TPID by TPID through the index. */
  method BuildDelta(fwd: map<nat, seq<nat>>, updates: seq<TPIDUpdate>) returns (delta: array<int>)
    ensures fresh(delta) && Scattered(delta[..], Diff, fwd, updates)
  {
    delta := new int[NUM_ORDERS](_ => 0);
    for j := 0 to |updates|
      invariant delta.Length == NUM_ORDERS && fresh(delta)
      invariant Scattered(delta[..], Diff, fwd, updates[..j])
    {
      var u := updates[j];
      var diff := u.newContrib - u.oldContrib;
      ghost var was := delta[..];
      if diff == 0.0 || u.tpid !in fwd {
        ScatteredSkip(was, Diff, fwd, updates, j);
      } else {
        var diffI32 := ToInt32(diff * SCORE_SCALE);
        CreditList(delta, diffI32, fwd[u.tpid]);
        ScatteredStep(was, delta[..], Diff, fwd, updates, j);
      }
    }
    assert updates[..|updates|] == updates;
  }

  // ---- Phase 2 ----

  /** The list published for a slice of entries that arr rearranges. */
  function ListOf(e: seq<ScoreEntry>, arr: EntrySort): seq<int> { Padded(Ids(Front(arr(e)))) }

  /** Every list of buf is the one arr makes of its pair's and table's entries. */
  ghost predicate RankedBy(buf: seq<int>, s: State, now: int, arr: EntrySort)
    requires Shaped(s) && PairsInside(s)
  {
    && |buf| == ListOffset(|s.pairs|, 0)
    && forall p: nat, t: nat :: p < |s.pairs| && t < NUM_TABLES ==>
      ListAt(buf, p, t) == ListOf(PairEntries(s, s.pairs[p], t, now), arr)
  }

  lemma RankedByIsRanked(buf: seq<int>, s: State, now: int, arr: EntrySort)
    requires Shaped(s) && PairsInside(s) && RankedBy(buf, s, now, arr) && Selects(arr)
    ensures Ranked(buf, s, now)
  {
    forall p: nat, t: nat | p < |s.pairs| && t < NUM_TABLES
      ensures ShowsTop(ListAt(buf, p, t), PairEntries(s, s.pairs[p], t, now))
    {
      ListOfShowsTop(PairEntries(s, s.pairs[p], t, now), arr);
    }
  }

  lemma ListOfShowsTop(e: seq<ScoreEntry>, arr: EntrySort)
    requires Selects(arr)
    ensures ShowsTop(ListOf(e, arr), e)
  {
    assert TopEntries(Front(arr(e)), e, TOP_K);
  }

  /** The lists of the first n pairs are ranked. */
  ghost predicate PairsRanked(buf: seq<int>, s: State, now: int, arr: EntrySort, n: nat)
    requires Shaped(s) && PairsInside(s) && n <= |s.pairs| && ListOffset(n, 0) <= |buf|
  {
    n == 0 || (PairsRanked(buf, s, now, arr, n - 1) && PairRanked(buf, s, now, arr, n - 1))
  }

  ghost predicate PairRanked(buf: seq<int>, s: State, now: int, arr: EntrySort, p: nat)
    requires Shaped(s) && PairsInside(s) && p < |s.pairs| && ListOffset(p + 1, 0) <= |buf|
  {
    forall t: nat :: t < NUM_TABLES ==> ListAt(buf, p, t) == ListOf(PairEntries(s, s.pairs[p], t, now), arr)
  }

  /** The first n pairs are ranked and nothing has been written behind them. */
  ghost predicate Progress(buf: seq<int>, s: State, now: int, arr: EntrySort, n: nat)
    requires Shaped(s) && PairsInside(s)
  {
    && n <= |s.pairs| && |buf| == ListOffset(|s.pairs|, 0)
    && PairsRanked(buf, s, now, arr, n)
    && Empty(buf, ListOffset(n, 0))
  }

  ghost predicate Empty(buf: seq<int>, from: int) { forall i :: 0 <= from <= i < |buf| ==> buf[i] == -1 }

  lemma {:induction false} PrefixKeepsRanked(a: seq<int>, b: seq<int>, s: State, now: int, arr: EntrySort, n: nat)
    requires Shaped(s) && PairsInside(s) && n <= |s.pairs|
    requires ListOffset(n, 0) <= |a| == |b| && a[..ListOffset(n, 0)] == b[..ListOffset(n, 0)]
    requires PairsRanked(a, s, now, arr, n)
    ensures PairsRanked(b, s, now, arr, n)
  {
    if n == 0 {
    } else {
      var last := n - 1;
      SamePrefix(a, b, ListOffset(last, 0), ListOffset(n, 0));
      PrefixKeepsRanked(a, b, s, now, arr, last);
      forall t: nat | t < NUM_TABLES ensures ListAt(b, last, t) == ListAt(a, last, t) {
        SameList(a, b, last, t, ListOffset(n, 0));
      }
    }
  }

  lemma {:induction false} RankedBefore(buf: seq<int>, s: State, now: int, arr: EntrySort, n: nat, p: nat)
    requires Shaped(s) && PairsInside(s) && p < n <= |s.pairs| && ListOffset(n, 0) <= |buf|
    requires PairsRanked(buf, s, now, arr, n)
    ensures PairRanked(buf, s, now, arr, p)
  {
    if p == n - 1 {
    } else {
      RankedBefore(buf, s, now, arr, n - 1, p);
    }
  }

  lemma AllRanked(buf: seq<int>, s: State, now: int, arr: EntrySort)
    requires Shaped(s) && PairsInside(s)
    requires Progress(buf, s, now, arr, |s.pairs|)
    ensures RankedBy(buf, s, now, arr)
  {
    forall p: nat, t: nat | p < |s.pairs| && t < NUM_TABLES
      ensures ListAt(buf, p, t) == ListOf(PairEntries(s, s.pairs[p], t, now), arr)
    {
      RankedBefore(buf, s, now, arr, |s.pairs|, p);
    }
  }

  lemma EntriesNext(meta: seq<OrderMeta>, row: seq<int>, eligible: seq<nat>, i: nat, table: nat, now: int)
    requires |meta| == |row| == NUM_ORDERS && i < |eligible|
    ensures var o := eligible[i];
            Entries(meta, row, eligible[..i + 1], table, now) ==
            Entries(meta, row, eligible[..i], table, now) +
            if Eligible(meta, o, table, now)
            then [ScoreEntry(RankKey(row[o], meta[o].pbtDeadline, table, now), o)] else []
  {
    EntriesSnoc(meta, row, eligible[..i], eligible[i], table, now);
    assert eligible[..i + 1] == eligible[..i] + [eligible[i]];
  }

  /** What one more order of the eligible list adds to each of the four slices. */
  lemma AllEntriesNext(meta: seq<OrderMeta>, row: seq<int>, eligible: seq<nat>, i: nat, now: int)
    requires |meta| == |row| == NUM_ORDERS && i < |eligible|
    ensures var o, front, next := eligible[i], eligible[..i], eligible[..i + 1];
            var live := o < NUM_ORDERS && meta[o].active;
            && Entries(meta, row, next, HEURISTIC, now) == Entries(meta, row, front, HEURISTIC, now) +
                 (if live then [ScoreEntry(row[o], o)] else [])
            && Entries(meta, row, next, LARGE, now) == Entries(meta, row, front, LARGE, now) +
                 (if live && meta[o].requiredQty >= LARGE_QTY then [ScoreEntry(row[o], o)] else [])
            && Entries(meta, row, next, PBT, now) == Entries(meta, row, front, PBT, now) +
                 (if live && meta[o].pbtDeadline > 0 then [ScoreEntry(Wrap32(now - meta[o].pbtDeadline), o)] else [])
            && Entries(meta, row, next, CRITICAL, now) == Entries(meta, row, front, CRITICAL, now) +
                 (if live && 0 < meta[o].pbtDeadline <= now + CRITICAL_CUTOFF
                  then [ScoreEntry(Wrap32(now - meta[o].pbtDeadline), o)] else [])
  {
    EntriesNext(meta, row, eligible, i, HEURISTIC, now);
    EntriesNext(meta, row, eligible, i, LARGE, now);
    EntriesNext(meta, row, eligible, i, PBT, now);
    EntriesNext(meta, row, eligible, i, CRITICAL, now);
  }

  /** The four scratch slices of a pair, by table. */
  ghost predicate SlicesOf(slices: seq<seq<ScoreEntry>>, s: State, pair: PairInfo, now: int)
    requires Shaped(s) && pair.ppsID < |s.rows|
  {
    |slices| == NUM_TABLES && forall t: nat :: t < NUM_TABLES ==> slices[t] == PairEntries(s, pair, t, now)
  }

  /** The ranked front of each of the first n slices. */
  ghost predicate TopsOf(tops: seq<seq<ScoreEntry>>, slices: seq<seq<ScoreEntry>>, arr: EntrySort, n: nat)
  {
    && |tops| == n <= NUM_TABLES == |slices|
    && forall t: nat :: t < n ==> |tops[t]| <= TOP_K && tops[t] == Front(arr(slices[t]))
  }

  /** buf after the lists of the first tables of pair p were written, in table order. */
  ghost function WriteTops(buf: seq<int>, p: nat, tops: seq<seq<ScoreEntry>>): (r: seq<int>)
    requires |tops| <= NUM_TABLES && ListOffset(p + 1, 0) <= |buf|
    requires forall t :: 0 <= t < |tops| ==> |tops[t]| <= TOP_K
    ensures |r| == |buf|
  {
    if tops == [] then buf
    else
      var t := |tops| - 1;
      Written(WriteTops(buf, p, tops[..t]), ListOffset(p, t), Ids(tops[t]))
  }

  /** Writing the lists of pair p touches no other pair and turns each empty list into a padded one. */
  lemma {:induction false} WrittenTops(buf: seq<int>, p: nat, tops: seq<seq<ScoreEntry>>)
    requires |tops| <= NUM_TABLES && ListOffset(p + 1, 0) <= |buf|
    requires forall t :: 0 <= t < |tops| ==> |tops[t]| <= TOP_K
    requires Empty(buf, ListOffset(p, 0))
    ensures var r := WriteTops(buf, p, tops);
            && r[..ListOffset(p, 0)] == buf[..ListOffset(p, 0)]
            && Empty(r, ListOffset(p, |tops|))
            && forall t: nat :: t < |tops| ==> ListAt(r, p, t) == Padded(Ids(tops[t]))
  {
    if tops == [] {
    } else {
      var front, last := tops[..|tops| - 1], |tops| - 1;
      WrittenTops(buf, p, front);
      var before, r := WriteTops(buf, p, front), WriteTops(buf, p, tops);
      assert r == Written(before, ListOffset(p, last), Ids(tops[last]));
      WriteOne(before, p, last, Ids(tops[last]));
      forall t: nat | t < |tops| ensures ListAt(r, p, t) == Padded(Ids(tops[t])) {
        if t < last {
          SameList(before, r, p, t, ListOffset(p, last));
          assert tops[t] == front[t];
        }
      }
      SamePrefix(before, r, ListOffset(p, 0), ListOffset(p, last));
    }
  }

  lemma WriteOne(buf: seq<int>, p: nat, t: nat, ids: seq<int>)
    requires t < NUM_TABLES && |ids| <= TOP_K && ListOffset(p + 1, 0) <= |buf|
    requires Empty(buf, ListOffset(p, t))
    ensures var r := Written(buf, ListOffset(p, t), ids);
            && r[..ListOffset(p, t)] == buf[..ListOffset(p, t)]
            && Empty(r, ListOffset(p, t + 1))
            && ListAt(r, p, t) == Padded(ids)
  {
    var off := ListOffset(p, t);
    var r := Written(buf, off, ids);
    assert ListOffset(p, t + 1) == off + TOP_K;
    forall i | off + |ids| <= i < |r| ensures r[i] == -1 {
      assert r[i] == buf[i];
    }
    assert r[off..off + TOP_K] == ids + seq(TOP_K - |ids|, _ => -1);
  }

  lemma SamePrefix(a: seq<int>, b: seq<int>, cut: nat, cut': nat)
    requires cut <= cut' <= |a| == |b| && a[..cut'] == b[..cut']
    ensures a[..cut] == b[..cut]
  {
    assert a[..cut] == a[..cut'][..cut] && b[..cut] == b[..cut'][..cut];
  }

  lemma SameList(a: seq<int>, b: seq<int>, p: nat, t: nat, cut: nat)
    requires ListOffset(p, t) + TOP_K <= cut <= |a| == |b| && a[..cut] == b[..cut]
    ensures ListAt(a, p, t) == ListAt(b, p, t)
  {
    var off := ListOffset(p, t);
    assert ListAt(a, p, t) == a[..cut][off..off + TOP_K];
    assert ListAt(b, p, t) == b[..cut][off..off + TOP_K];
  }

  lemma RankedPair(buf: seq<int>, s: State, now: int, arr: EntrySort, p: nat,
                   slices: seq<seq<ScoreEntry>>, tops: seq<seq<ScoreEntry>>)
    requires Shaped(s) && PairsInside(s) && p < |s.pairs|
    requires Progress(buf, s, now, arr, p) && SlicesOf(slices, s, s.pairs[p], now)
    requires TopsOf(tops, slices, arr, NUM_TABLES)
    ensures Progress(WriteTops(buf, p, tops), s, now, arr, p + 1)
  {
    WrittenTops(buf, p, tops);
    var r := WriteTops(buf, p, tops);
    PrefixKeepsRanked(buf, r, s, now, arr, p);
    forall t: nat | t < NUM_TABLES ensures ListAt(r, p, t) == ListOf(PairEntries(s, s.pairs[p], t, now), arr) {
      assert ListAt(r, p, t) == Padded(Ids(tops[t]));
    }
  }

  /** Ranks one table's scratch slice in place and copies the winners into its slot of the buffer. */
  method RankInto(buf: array<int>, p: nat, t: nat, slice: seq<ScoreEntry>, sort: EntrySort)
    returns (ghost top: seq<ScoreEntry>)
    requires t < NUM_TABLES && ListOffset(p, t) + TOP_K <= buf.Length && Sorts(sort, ScoreOf)
    modifies buf
    ensures |top| <= TOP_K && top == Front(ArrangeWith(sort)(slice))
    ensures buf[..] == Written(old(buf[..]), ListOffset(p, t), Ids(top))
  {
    var scratch := new ScoreEntry[|slice|](i requires 0 <= i < |slice| => slice[i]);
    assert scratch[..] == slice;
    top := QuickselectAndCopy(buf, ListOffset(p, t), scratch, sort);
  }

  method RankTables(buf: array<int>, p: nat, slices: seq<seq<ScoreEntry>>, sort: EntrySort)
    returns (ghost tops: seq<seq<ScoreEntry>>)
    requires |slices| == NUM_TABLES && ListOffset(p + 1, 0) <= buf.Length && Sorts(sort, ScoreOf)
    modifies buf
    ensures TopsOf(tops, slices, ArrangeWith(sort), NUM_TABLES)
    ensures buf[..] == WriteTops(old(buf[..]), p, tops)
  {
    tops := [];
    ghost var was := buf[..];
    for t := 0 to NUM_TABLES
      invariant TopsOf(tops, slices, ArrangeWith(sort), t)
      invariant buf[..] == WriteTops(was, p, tops)
    {
      ghost var top := RankInto(buf, p, t, slices[t], sort);
      MoreTops(was, p, tops, top, slices, ArrangeWith(sort));
      tops := tops + [top];
    }
  }

  lemma MoreTops(buf: seq<int>, p: nat, tops: seq<seq<ScoreEntry>>, top: seq<ScoreEntry>,
                 slices: seq<seq<ScoreEntry>>, arr: EntrySort)
    requires |tops| < NUM_TABLES && ListOffset(p + 1, 0) <= |buf|
    requires TopsOf(tops, slices, arr, |tops|) && |top| <= TOP_K && top == Front(arr(slices[|tops|]))
    ensures TopsOf(tops + [top], slices, arr, |tops| + 1)
    ensures WriteTops(buf, p, tops + [top]) == Written(WriteTops(buf, p, tops), ListOffset(p, |tops|), Ids(top))
  {
    assert (tops + [top])[..|tops|] == tops;
  }

  lemma ServedNext(list: seq<int>, k: nat, i: nat, read: seq<int>)
    requires i < |list| && i < k && Served(list, k) == read + Served(list[i..], k - i)
    ensures list[i] == -1 ==> Served(list, k) == read
    ensures list[i] != -1 ==> Served(list, k) == (read + [list[i]]) + Served(list[i + 1..], k - i - 1)
  {
    assert list[i..][1..] == list[i + 1..];
    if list[i] == -1 {
      assert read + [] == read;
    } else {
      var rest := Served(list[i + 1..], k - i - 1);
      assert read + ([list[i]] + rest) == (read + [list[i]]) + rest;
    }
  }

  lemma ServedAll(list: seq<int>, k: nat, n: nat, read: seq<int>)
    requires n == Min(k, |list|) && Served(list, k) == read + Served(list[n..], k - n)
    ensures Served(list, k) == read
  {
    assert read + [] == read;
  }

  /** Reads a list up to its first empty slot, at most k ids of it. */
  method GetList(buf: array<int>, pair: nat, table: nat, k: nat) returns (result: seq<int>)
    requires ListOffset(pair, table) + TOP_K <= buf.Length
    ensures result == Served(ListAt(buf[..], pair, table), k)
  {
    var off := ListOffset(pair, table);
    var cap := if k > TOP_K then TOP_K else k;
    ghost var list := ListAt(buf[..], pair, table);
    result := [];
    assert list[0..] == list;
    for i := 0 to cap
      invariant Served(list, k) == result + Served(list[i..], k - i)
    {
      var v := buf[off + i];
      assert v == list[i];
      ServedNext(list, k, i, result);
      if v == -1 {
        return;
      }
      result := result + [v];
    }
    ServedAll(list, k, cap, result);
  }

  class ComputeEngine {
    const Matrix: PPSMatrix
    const Registry: OrderRegistry
    const Indexes: InvertedIndexes
    const Topology: TopologyState
    const numWorkers: int
    const librarySort: EntrySort   // the sort of the standard library, of which only the contract is used
    var Pairs: seq<PairInfo>
    var pendingWarmup: seq<PairInfo>
    var Published: array<int>
    ghost var book: Book   // the orders as the naive model sees them

    ghost predicate Valid()
      reads this, Registry.Meta, Indexes, Matrix.data
    {
      && Registry.Valid() && Matrix.Valid() && Indexes.Valid() && Matrix.NumPPS > 0
      && Published != Matrix.data
      && SlotsOwnIDs(Registry.Meta[..])
      && PairsInside(View())
    }

    /** The engine's state is that of its book. */
    ghost predicate FollowsBook()
      requires Registry.Valid() && Matrix.Valid()
      reads this, Registry.Meta, Indexes, Matrix.data
    {
      Coupled(View(), book)
    }

    /** What ranking needs: the shapes of the arrays and the pairs' rows. */
    ghost predicate Rankable()
      reads this, Registry.Meta, Indexes, Matrix.data
    {
      Registry.Valid() && Matrix.Valid() && PairsInside(View())
    }

    ghost function View(): (s: State)
      requires Registry.Valid() && Matrix.Valid()
      reads this, Registry.Meta, Indexes, Matrix.data
      ensures Shaped(s) && |s.rows| == Matrix.NumPPS
    {
      ViewOf(Registry, Indexes, Matrix, Pairs)
    }

    /** The topology and the warm-up queue. */
    ghost function Life(): L.GoLife
      reads this, Topology
    {
      L.GoLife(Topology.states, pendingWarmup)
    }

    constructor (pairs: seq<PairInfo>, numPPS: nat, topo: TopologyState, workers: int, sort: EntrySort)
      requires numPPS > 0 && forall p :: p in pairs ==> p.ppsID < numPPS
      ensures Valid() && View() == Init(numPPS, pairs)
      ensures FollowsBook() && book == map[] && librarySort == sort
      ensures Topology == topo && Life() == L.GoLife(topo.states, [])
      ensures fresh(Registry.Meta) && fresh(Indexes) && fresh(Matrix.data) && fresh(Published)
      ensures Published[..] == seq(ListOffset(|pairs|, 0), _ => -1)
    {
      Matrix := new PPSMatrix(numPPS);
      Registry := new OrderRegistry();
      Indexes := new InvertedIndexes();
      numWorkers := workers;
      librarySort := sort;
      Topology, pendingWarmup := topo, [];
      Pairs := pairs;
      book := map[];
      Published := new int[ListOffset(|pairs|, 0)](_ => -1);
      new;
      ZeroRows(numPPS);
      InitLinked(numPPS, pairs);
    }

    /** Phase 1: the delta vector is built once, then each worker sweeps its own rows. */
    method Phase1Update(updates: seq<TPIDUpdate>)
      requires Valid()
      modifies Matrix.data
      ensures Valid() && View() == Phase1(old(View()), updates)
    {
      if |updates| == 0 {
        return;
      }
      var delta := BuildDelta(Indexes.TPIDToOrders, updates);
      var numW := EffectiveWorkers(numWorkers, Matrix.NumPPS);
      var rowsPerWorker := PerWorker(Matrix.NumPPS, numW);
      ghost var was := Matrix.data[..];
      var start := 0;
      while start < Matrix.NumPPS
        invariant 0 <= start
        invariant Scattered(delta[..], Diff, Indexes.TPIDToOrders, updates)
        invariant Matrix.data[..] == Swept(was, 0, Min(start, Matrix.NumPPS) * NUM_ORDERS, delta[..])
        decreases Matrix.NumPPS - start
      {
        var end := Min(start + rowsPerWorker, Matrix.NumPPS);
        Matrix.UpdateRowRange(start, end - start, delta);
        SweptTwice(Saturated, was, 0, start * NUM_ORDERS, end * NUM_ORDERS, delta[..]);
        start := start + rowsPerWorker;
      }
      SweptRows(Saturated, Diff, was, Matrix.NumPPS, Indexes.TPIDToOrders, updates, delta[..]);
    }

    /** The single pass over a pair's eligible orders, filling the four scratch slices. */
    method FillScratch(pair: PairInfo, nowSecs: int) returns (slices: seq<seq<ScoreEntry>>)
      requires Registry.Valid() && Matrix.Valid() && pair.ppsID < Matrix.NumPPS
      ensures SlicesOf(slices, View(), pair, nowSecs)
    {
      var eligible := At(Indexes.BinTagToOrders, pair.binTagID);
      var heuristic, large, pbt, critical := ScanEligible(eligible, pair.ppsID, nowSecs);
      slices := [heuristic, large, pbt, critical];
    }

    method ScanEligible(eligible: seq<nat>, ppsID: nat, nowSecs: int)
      returns (heuristic: seq<ScoreEntry>, large: seq<ScoreEntry>, pbt: seq<ScoreEntry>, critical: seq<ScoreEntry>)
      requires Registry.Valid() && Matrix.Valid() && ppsID < Matrix.NumPPS
      ensures var meta, row := Registry.Meta[..], RowsOf(Matrix.data[..], Matrix.NumPPS)[ppsID];
              && heuristic == Entries(meta, row, eligible, HEURISTIC, nowSecs)
              && large == Entries(meta, row, eligible, LARGE, nowSecs)
              && pbt == Entries(meta, row, eligible, PBT, nowSecs)
              && critical == Entries(meta, row, eligible, CRITICAL, nowSecs)
    {
      var critDeadline := nowSecs + CRITICAL_CUTOFF;
      ghost var meta, row := Registry.Meta[..], RowsOf(Matrix.data[..], Matrix.NumPPS)[ppsID];
      heuristic, large, pbt, critical := [], [], [], [];
      for i := 0 to |eligible|
        invariant heuristic == Entries(meta, row, eligible[..i], HEURISTIC, nowSecs)
        invariant large == Entries(meta, row, eligible[..i], LARGE, nowSecs)
        invariant pbt == Entries(meta, row, eligible[..i], PBT, nowSecs)
        invariant critical == Entries(meta, row, eligible[..i], CRITICAL, nowSecs)
      {
        var oid := eligible[i];
        AllEntriesNext(meta, row, eligible, i, nowSecs);
        if oid < NUM_ORDERS && Registry.Meta[oid].active {
          var m := Registry.Meta[oid];
          assert m == meta[oid];
          var score := Matrix.Score(ppsID, oid);
          heuristic := heuristic + [ScoreEntry(score, oid)];
          if m.requiredQty >= LARGE_QTY {
            large := large + [ScoreEntry(score, oid)];
          }
          if m.pbtDeadline > 0 {
            var dl := ScoreEntry(Wrap32(nowSecs - m.pbtDeadline), oid);
            pbt := pbt + [dl];
            if m.pbtDeadline <= critDeadline {
              critical := critical + [dl];
            }
          }
        }
      }
      assert eligible[..|eligible|] == eligible;
    }

    /** Ranks pair p into its lists of the buffer. */
    method RankPair(buf: array<int>, p: nat, nowSecs: int, ghost s: State, ghost arr: EntrySort)
      requires Rankable() && p < |Pairs| && buf != Matrix.data
      requires Sorts(librarySort, ScoreOf) && arr == ArrangeWith(librarySort)
      requires s == View() && Progress(buf[..], s, nowSecs, arr, p)
      modifies buf
      ensures s == View() && Progress(buf[..], s, nowSecs, arr, p + 1)
    {
      ghost var before := buf[..];
      var slices := FillScratch(Pairs[p], nowSecs);
      ghost var tops := RankTables(buf, p, slices, librarySort);
      RankedPair(before, s, nowSecs, arr, p, slices, tops);
    }

    /** What one worker does: its pairs from lo to hi, in order. */
    method RankRange(buf: array<int>, lo: nat, hi: nat, nowSecs: int, ghost s: State, ghost arr: EntrySort)
      requires Rankable() && lo <= hi <= |Pairs| && buf != Matrix.data
      requires Sorts(librarySort, ScoreOf) && arr == ArrangeWith(librarySort)
      requires s == View() && Progress(buf[..], s, nowSecs, arr, lo)
      modifies buf
      ensures s == View() && Progress(buf[..], s, nowSecs, arr, hi)
    {
      for p := lo to hi
        invariant s == View() && Progress(buf[..], s, nowSecs, arr, p)
      {
        RankPair(buf, p, nowSecs, s, arr);
      }
    }

    /** Phase 2: worker w owns the pairs from w * pairsPerWorker to the next worker's first. */
    method Phase2Rank(nowSecs: int) returns (buf: array<int>)
      requires Rankable() && Sorts(librarySort, ScoreOf)
      ensures fresh(buf) && RankedBy(buf[..], View(), nowSecs, ArrangeWith(librarySort))
    {
      var numPairs := |Pairs|;
      ghost var s, arr := View(), ArrangeWith(librarySort);
      buf := new int[ListOffset(numPairs, 0)](_ => -1);
      if numPairs == 0 {
        return;
      }
      var numW := EffectiveWorkers(numWorkers, numPairs);
      var pairsPerWorker := PerWorker(numPairs, numW);
      ghost var reached := 0;
      for w := 0 to numW
        invariant s == View() && reached == ChunkStart(w, pairsPerWorker, numPairs)
        invariant Progress(buf[..], s, nowSecs, arr, reached)
      {
        ChunkStartProduct(w, pairsPerWorker, numPairs);
        var lo := w * pairsPerWorker;
        var hi := Min(lo + pairsPerWorker, numPairs);
        if lo >= numPairs {
          break;
        }
        reached := hi;
        RankRange(buf, lo, hi, nowSecs, s, arr);
      }
      ChunksCover(numPairs, numW);
      AllRanked(buf[..], s, nowSecs, arr);
    }

    /** Activates every queued pair and empties the queue. */
    method PromoteWarmingPairs()
      modifies Topology, this`pendingWarmup
      ensures Life() == L.GoLifeStep(old(Life()), L.Cycled)
    {
      ghost var states := Topology.states;
      for i := 0 to |pendingWarmup|
        invariant pendingWarmup == old(pendingWarmup)
        invariant Topology.states == Activated(states, pendingWarmup[..i])
      {
        assert pendingWarmup[..i + 1][..i] == pendingWarmup[..i];
        Topology.Set(pendingWarmup[i], Active);
      }
      assert pendingWarmup[..|pendingWarmup|] == pendingWarmup;
      pendingWarmup := [];
    }

    /** One cycle: purge, update the scores, rank every pair, publish, promote. */
    method RunCycleWithDict(updates: seq<TPIDUpdate>, nowSecs: int)
      requires Valid() && FollowsBook() && Sorts(librarySort, ScoreOf)
      modifies this`Published, this`pendingWarmup, this`book, Registry.Meta, Indexes, Matrix.data, Topology
      ensures Valid() && fresh(Published)
      ensures Life() == L.GoLifeStep(old(Life()), L.Cycled)
      ensures View() == Prepared(old(View()), updates, nowSecs)
      ensures RankedBy(Published[..], View(), nowSecs, ArrangeWith(librarySort))
      ensures FollowsBook() && book == NaiveStep(old(book), Cycle(updates, nowSecs, Published[..]))
      ensures |Published[..]| == ListOffset(|Pairs|, 0)
      ensures forall p: nat, t: nat :: p < |Pairs| && t < NUM_TABLES ==>
                BookList(ListAt(Published[..], p, t), book, Pairs[p].binTagID, t, nowSecs)
    {
      ghost var was := View();
      Registry.PurgeExpired(nowSecs, Indexes, Matrix, Pairs);
      Phase1Update(updates);
      var buf := Phase2Rank(nowSecs);
      Published := buf;
      PromoteWarmingPairs();
      CycleFollowsBook(was, book, updates, nowSecs, buf[..], librarySort);
      book := NaiveStep(book, Cycle(updates, nowSecs, buf[..]));
    }

    /** The Kafka consumer's entry: one order event. */
    method Ingest(evt: OrderEvent, nowSecs: int)
      requires Valid() && FollowsBook() && evt.orderID < NUM_ORDERS
      modifies this`book, Registry.Meta, Indexes, Matrix.data
      ensures Valid() && View() == GoState.Ingest(old(View()), evt, nowSecs)
      ensures FollowsBook() && book == NaiveStep(old(book), Ingested(evt, nowSecs))
    {
      StepCoupled(View(), book, Ingested(evt, nowSecs));
      IngestOrder(evt, Registry, Indexes, Matrix, nowSecs, Pairs);
      book := NaiveStep(book, Ingested(evt, nowSecs));
    }

    method HandleOrderRemoved(orderID: nat)
      requires Valid() && FollowsBook()
      modifies this`book, Registry.Meta, Indexes, Matrix.data
      ensures Valid() && View() == Evict(old(View()), orderID)
      ensures FollowsBook() && book == old(book) - {orderID}
    {
      StepCoupled(View(), book, Evicted(orderID));
      Registry.EvictOrder(orderID, Indexes, Matrix, Pairs);
      book := book - {orderID};
    }

    /** Marks the pair as warming up, queues it, and tracks it unless its key is tracked already. */
    method HandleAddPair(pair: PairInfo)
      requires Valid() && FollowsBook() && pair.ppsID < Matrix.NumPPS
      modifies this`Pairs, this`pendingWarmup, Topology
      ensures Life() == L.GoLifeStep(old(Life()), L.Added(pair))
      ensures Valid() && View() == EngineStep(old(View()), PairAdded(pair))
      ensures FollowsBook()
      ensures pair in Pairs && old(Pairs) <= Pairs <= old(Pairs) + [pair]
      ensures Topology.states == old(Topology.states)[pair.Key() := WarmingUp]
      ensures pendingWarmup == old(pendingWarmup) + [pair]
    {
      StepCoupled(View(), book, PairAdded(pair));
      Topology.Set(pair, WarmingUp);
      pendingWarmup := pendingWarmup + [pair];
      for i := 0 to |Pairs|
        invariant forall p :: p in Pairs[..i] ==> p.Key() != pair.Key()
      {
        if Pairs[i].Key() == pair.Key() {
          PairKeyInjective(Pairs[i], pair);
          return;
        }
      }
      Pairs := Pairs + [pair];
    }

    /** Marks the pair removed and drops its key from the tracked pairs, keeping the others in order. */
    method HandleRemovePair(pair: PairInfo)
      requires Valid() && FollowsBook()
      modifies this`Pairs, Topology
      ensures Life() == L.GoLifeStep(old(Life()), L.Dropped(pair))
      ensures Valid() && View() == EngineStep(old(View()), PairRemoved(pair))
      ensures FollowsBook()
      ensures forall p :: p in Pairs <==> p in old(Pairs) && p != pair
      ensures Topology.states == old(Topology.states)[pair.Key() := Removed]
      ensures pendingWarmup == old(pendingWarmup)
    {
      StepCoupled(View(), book, PairRemoved(pair));
      UntrackedExactly(Pairs, pair);
      Topology.Set(pair, Removed);
      var filtered := FilterPairs(Pairs, pair.Key());
      Pairs := filtered;
    }
  }

  /** Every list of a ranked buffer is the book's. */
  lemma RankedIsBook(buf: seq<int>, s: State, b: Book, now: int)
    requires Shaped(s) && PairsInside(s) && Coupled(s, b) && Ranked(buf, s, now)
    ensures forall p: nat, t: nat :: p < |s.pairs| && t < NUM_TABLES ==>
              BookList(ListAt(buf, p, t), b, s.pairs[p].binTagID, t, now)
  {
    forall p: nat, t: nat | p < |s.pairs| && t < NUM_TABLES
      ensures BookList(ListAt(buf, p, t), b, s.pairs[p].binTagID, t, now)
    {
      assert s.pairs[p] in s.pairs;
      TopListIsBookList(ListAt(buf, p, t), s, b, s.pairs[p], t, now);
    }
  }

  /** What a cycle prepares and publishes follows the book's own step. */
  lemma CycleFollowsBook(was: State, b: Book, updates: seq<TPIDUpdate>, now: int, buf: seq<int>, sort: EntrySort)
    requires Coupled(was, b) && PairsInside(was) && Sorts(sort, ScoreOf)
    requires var s := Prepared(was, updates, now);
             Shaped(s) && PairsInside(s) && RankedBy(buf, s, now, ArrangeWith(sort))
    ensures var s, b' := Prepared(was, updates, now), NaiveStep(b, Cycle(updates, now, buf));
            && Coupled(s, b')
            && forall p: nat, t: nat :: p < |s.pairs| && t < NUM_TABLES ==>
                 BookList(ListAt(buf, p, t), b', s.pairs[p].binTagID, t, now)
  {
    var s := Prepared(was, updates, now);
    StepCoupled(was, b, Cycle(updates, now, buf));
    ArrangeWithSelects(sort);
    RankedByIsRanked(buf, s, now, ArrangeWith(sort));
    RankedIsBook(buf, s, NaiveStep(b, Cycle(updates, now, buf)), now);
  }

  /** go-pure: adds the delta vector to one row, of whatever width, saturating each cell. */
  method ApplyDeltaToRow(row: array<int>, delta: array<int>)
    requires delta.Length <= row.Length && row != delta
    modifies row
    ensures forall o :: 0 <= o < delta.Length ==> row[o] == Saturated(old(row[o]), delta[o])
    ensures row[delta.Length..] == old(row[delta.Length..])
  {
    for o := 0 to delta.Length
      invariant forall i :: 0 <= i < o ==> row[i] == Saturated(old(row[i]), delta[i])
      invariant forall i :: o <= i < row.Length ==> row[i] == old(row[i])
    {
      row[o] := ClampI16(Wrap32(row[o] + delta[o]));
    }
  }
}
