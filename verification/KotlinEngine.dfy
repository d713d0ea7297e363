/**
 * The Kotlin engine, whose hot path reads frozen copies of the index, against the same engine
 * reading the live maps.
 */
module KotlinEngine {
  import opened Common
  import opened SeqFacts
  import opened Ranking
  import opened Index
  import opened GoState
  import opened Naive
  import opened KotlinPacked

  /** core holds registry, live index, matrix and pairs; the frozen maps are the last materialized ones. */
  datatype KState = KState(core: State, frozenT: map<nat, seq<nat>>, frozenB: map<nat, seq<nat>>)

  datatype KAction =
    | KIngested(evt: OrderEvent, at: int)
    | KEvicted(order: nat)
    | Materialized
    | KPairAdded(pair: PairInfo)
    | KPairRemoved(pair: PairInfo)
    | KCycled(updates: seq<TPIDUpdate>, now: int)

  function KInit(numPPS: nat, pairs: seq<PairInfo>): KState { KState(Init(numPPS, pairs), map[], map[]) }

  // ---- The kernel, with Kotlin's conversions and full int16 range ----

  function KToInt32(x: real): int { Clamp(INT32_MIN, -INT32_MIN - 1, Trunc(x)) }

  function KClamp(v: int): int { Clamp(-32768, 32767, v) }

  function KBase(evt: OrderEvent): int { KClamp(Trunc(evt.baseScore * SCORE_SCALE)) }

  function KDiff(u: TPIDUpdate): int { KToInt32((u.newContrib - u.oldContrib) * SCORE_SCALE) }

  ghost function KScatter(fwd: map<nat, seq<nat>>, updates: seq<TPIDUpdate>, o: nat): int
  {
    ScatterBy(KDiff, fwd, updates, o)
  }

  function KCell(score: int, delta: int): int { KClamp(Wrap32(score + delta)) }

  ghost function KPhase1(s: State, fwd: map<nat, seq<nat>>, updates: seq<TPIDUpdate>): State
  {
    if updates == [] then s else s.(rows := RowsBy(KCell, KDiff, s.rows, fwd, updates))
  }

  /** An event beyond the registry is ignored. */
  function KIngest(s: State, evt: OrderEvent, now: int): State
    requires Shaped(s)
  {
    if evt.orderID >= NUM_ORDERS then s else IngestWith(s, evt, now, KBase(evt))
  }

  /** The ids published for one pair and table, given that pair's eligible list. */
  function KList(s: State, pair: PairInfo, eligible: seq<nat>, table: nat, now: int): seq<int>
    requires Shaped(s) && pair.ppsID < |s.rows|
  {
    FirstWords(Words(Entries(s.meta, s.rows[pair.ppsID], eligible, table, now)))
  }

  /** All published lists, pair by pair and table by table. */
  function KLists(s: State, fwd: map<nat, seq<nat>>, now: int): seq<seq<seq<int>>>
    requires Shaped(s) && PairsInside(s)
  {
    seq(|s.pairs|, p requires 0 <= p < |s.pairs| =>
      assert s.pairs[p] in s.pairs;
      seq(NUM_TABLES, t requires 0 <= t < NUM_TABLES => KList(s, s.pairs[p], At(fwd, s.pairs[p].binTagID), t, now)))
  }

  // ---- Runs, with live = true reading the live maps instead of the frozen ones ----

  ghost predicate Good(k: KState) { Shaped(k.core) && PairsInside(k.core) }

  function TpidsRead(k: KState, live: bool): map<nat, seq<nat>> { if live then k.core.tpids.fwd else k.frozenT }

  function TagsRead(k: KState, live: bool): map<nat, seq<nat>> { if live then k.core.binTags.fwd else k.frozenB }

  /** A pair needs a row of the matrix, which does not grow. */
  predicate HasRow(act: KAction, rows: nat) { act.KPairAdded? ==> act.pair.ppsID < rows }

  ghost predicate HaveRows(acts: seq<KAction>, rows: nat) { forall i :: 0 <= i < |acts| ==> HasRow(acts[i], rows) }

  ghost function KStep(k: KState, act: KAction, live: bool): (r: KState)
    requires Good(k) && HasRow(act, |k.core.rows|)
    ensures Good(r) && |r.core.rows| == |k.core.rows|
  {
    match act
    case KIngested(evt, at) => k.(core := KIngest(k.core, evt, at))
    case KEvicted(o) => k.(core := Evict(k.core, o))
    case Materialized => k.(frozenT := k.core.tpids.fwd, frozenB := k.core.binTags.fwd)
    case KPairAdded(pair) => k.(core := k.core.(pairs := TrackPair(k.core.pairs, pair)))
    case KPairRemoved(pair) => k.(core := k.core.(pairs := UntrackPair(k.core.pairs, pair.Key())))
    case KCycled(updates, now) =>
      var purged := k.(core := Purge(k.core, now));
      purged.(core := KPhase1(purged.core, TpidsRead(purged, live), updates))
  }

  ghost function KRun(k: KState, acts: seq<KAction>, live: bool): (r: KState)
    requires Good(k) && HaveRows(acts, |k.core.rows|)
    ensures Good(r) && |r.core.rows| == |k.core.rows|
  {
    if acts == [] then k else KStep(KRun(k, acts[..|acts| - 1], live), acts[|acts| - 1], live)
  }

  /** The lists published by each cycle of a run. */
  ghost function Publications(k: KState, acts: seq<KAction>, live: bool): seq<seq<seq<seq<int>>>>
    requires Good(k) && HaveRows(acts, |k.core.rows|)
  {
    if acts == [] then []
    else
      var last, r := acts[|acts| - 1], KRun(k, acts, live);
      Publications(k, acts[..|acts| - 1], live) +
      if last.KCycled? then [KLists(r.core, TagsRead(r, live), last.now)] else []
  }

  /** Nothing has been ingested since both maps were last frozen. */
  predicate FrozenAfterIngest(acts: seq<KAction>)
  {
    acts == [] || acts[|acts| - 1].Materialized? ||
    (!acts[|acts| - 1].KIngested? && FrozenAfterIngest(acts[..|acts| - 1]))
  }

  /** Every cycle runs with maps frozen after the last ingest, as the startup sequence does. */
  predicate Disciplined(acts: seq<KAction>)
  {
    acts == [] ||
    (Disciplined(acts[..|acts| - 1]) && (acts[|acts| - 1].KCycled? ==> FrozenAfterIngest(acts)))
  }

  // ---- The invariant of a state ----

  function Inactive(s: State): set<nat>
    requires Shaped(s)
  {
    set o: nat | o < NUM_ORDERS && !s.meta[o].active
  }

  ghost predicate IndexedActive(s: State)
    requires Shaped(s)
  {
    && Consistent(s.tpids) && Consistent(s.binTags)
    && forall o: nat :: !IsActive(s, o) ==> At(s.tpids.rev, o) == [] && At(s.binTags.rev, o) == []
  }

  /** The frozen lists, restricted to active orders, are the live lists. */
  ghost predicate FrozenCurrent(k: KState)
    requires Shaped(k.core)
  {
    && (forall t: nat :: Minus(At(k.frozenT, t), Inactive(k.core)) == At(k.core.tpids.fwd, t))
    && (forall b: nat :: Minus(At(k.frozenB, b), Inactive(k.core)) == At(k.core.binTags.fwd, b))
  }

  lemma NoInactiveListed(h: Half, s: State, k: nat)
    requires Shaped(s) && Consistent(h) && forall o: nat :: !IsActive(s, o) ==> At(h.rev, o) == []
    ensures Minus(At(h.fwd, k), Inactive(s)) == At(h.fwd, k)
  {
    forall o | o in At(h.fwd, k) ensures o !in Inactive(s) {
      assert Count(At(h.fwd, k), o) == Count(At(h.rev, o), k);
    }
    MinusNone(At(h.fwd, k), Inactive(s));
  }

  /** Evictions remove from the live lists what turns inactive in the frozen ones. */
  lemma EvictKeepsFrozen(k: KState, gone: set<nat>)
    requires Good(k) && IndexedActive(k.core) && FrozenCurrent(k)
    requires forall o :: o in gone ==> o < NUM_ORDERS
    ensures var k' := k.(core := EvictSet(k.core, gone));
            IndexedActive(k'.core) && FrozenCurrent(k')
  {
    var k' := k.(core := EvictSet(k.core, gone));
    DropConsistent(k.core.tpids, gone);
    DropConsistent(k.core.binTags, gone);
    assert Inactive(k'.core) == Inactive(k.core) + gone;
    forall o: nat | !IsActive(k'.core, o) ensures At(k'.core.tpids.rev, o) == [] && At(k'.core.binTags.rev, o) == [] {
      assert o !in gone ==> !IsActive(k.core, o);
    }
    forall t: nat ensures Minus(At(k.frozenT, t), Inactive(k'.core)) == At(k'.core.tpids.fwd, t) {
      MinusMinus(At(k.frozenT, t), Inactive(k.core), gone);
    }
    forall b: nat ensures Minus(At(k.frozenB, b), Inactive(k'.core)) == At(k'.core.binTags.fwd, b) {
      MinusMinus(At(k.frozenB, b), Inactive(k.core), gone);
    }
  }

  lemma IngestKeepsIndexed(s: State, evt: OrderEvent, at: int)
    requires Shaped(s) && IndexedActive(s)
    ensures IndexedActive(KIngest(s, evt, at))
  {
    if evt.orderID < NUM_ORDERS {
      var s' := KIngest(s, evt, at);
      AddConsistent(s.tpids, evt.orderID, evt.tpids);
      AddConsistent(s.binTags, evt.orderID, evt.binTags);
      forall o: nat | !IsActive(s', o) ensures At(s'.tpids.rev, o) == [] && At(s'.binTags.rev, o) == [] {
        AddAt(s.tpids, evt.orderID, evt.tpids, o);
        AddAt(s.binTags, evt.orderID, evt.binTags, o);
        assert !IsActive(s, o);
      }
    }
  }

  /** The pair list plays no part in any of this. */
  lemma PairsKeepIndex(k: KState, pairs: seq<PairInfo>)
    requires Good(k) && IndexedActive(k.core)
    ensures IndexedActive(k.core.(pairs := pairs))
    ensures FrozenCurrent(k) ==> FrozenCurrent(k.(core := k.core.(pairs := pairs)))
  {
    var s := k.core.(pairs := pairs);
    assert Inactive(s) == Inactive(k.core);
    assert forall o: nat :: IsActive(s, o) <==> IsActive(k.core, o);
  }

  lemma StepKeepsIndex(k: KState, act: KAction, live: bool)
    requires Good(k) && HasRow(act, |k.core.rows|) && IndexedActive(k.core)
    ensures IndexedActive(KStep(k, act, live).core)
    ensures FrozenCurrent(k) && !act.KIngested? ==> FrozenCurrent(KStep(k, act, live))
    ensures act.Materialized? ==> FrozenCurrent(KStep(k, act, live))
  {
    match act
    case KIngested(evt, at) => IngestKeepsIndexed(k.core, evt, at);
    case KEvicted(o) => EvictKeepsIndex(k, if IsActive(k.core, o) then {o} else {});
    case Materialized =>
      forall t: nat ensures Minus(At(k.core.tpids.fwd, t), Inactive(k.core)) == At(k.core.tpids.fwd, t) {
        NoInactiveListed(k.core.tpids, k.core, t);
      }
      forall b: nat ensures Minus(At(k.core.binTags.fwd, b), Inactive(k.core)) == At(k.core.binTags.fwd, b) {
        NoInactiveListed(k.core.binTags, k.core, b);
      }
    case KPairAdded(_) => PairsKeepIndex(k, KStep(k, act, live).core.pairs);
    case KPairRemoved(_) => PairsKeepIndex(k, KStep(k, act, live).core.pairs);
    case KCycled(updates, now) =>
      EvictKeepsIndex(k, Expired(k.core, now));
      var p := k.(core := Purge(k.core, now));
      var r := KStep(k, act, live);
      assert r.core.meta == p.core.meta && r.core.tpids == p.core.tpids && r.core.binTags == p.core.binTags;
      assert Inactive(r.core) == Inactive(p.core);
      assert forall o: nat :: IsActive(r.core, o) <==> IsActive(p.core, o);
  }

  lemma EvictKeepsIndex(k: KState, gone: set<nat>)
    requires Good(k) && IndexedActive(k.core)
    requires forall o :: o in gone ==> o < NUM_ORDERS
    ensures IndexedActive(EvictSet(k.core, gone))
    ensures FrozenCurrent(k) ==> FrozenCurrent(k.(core := EvictSet(k.core, gone)))
  {
    var fresh' := k.(frozenT := k.core.tpids.fwd, frozenB := k.core.binTags.fwd);
    forall t: nat ensures Minus(At(fresh'.frozenT, t), Inactive(k.core)) == At(k.core.tpids.fwd, t) {
      NoInactiveListed(k.core.tpids, k.core, t);
    }
    forall b: nat ensures Minus(At(fresh'.frozenB, b), Inactive(k.core)) == At(k.core.binTags.fwd, b) {
      NoInactiveListed(k.core.binTags, k.core, b);
    }
    EvictKeepsFrozen(fresh', gone);
    if FrozenCurrent(k) {
      EvictKeepsFrozen(k, gone);
    }
  }

  // ---- The two engines side by side ----

  /** Same registry, index and pairs; matrices equal on every active order. */
  ghost predicate Alike(f: State, l: State)
  {
    && Shaped(f) && Shaped(l)
    && f.meta == l.meta && f.tpids == l.tpids && f.binTags == l.binTags && f.pairs == l.pairs
    && |f.rows| == |l.rows|
    && forall p, o :: 0 <= p < |f.rows| && 0 <= o < NUM_ORDERS && f.meta[o].active ==> f.rows[p][o] == l.rows[p][o]
  }

  /** A stale TPID map scatters to active orders what the live map does. */
  lemma {:induction false} FrozenScatter(k: KState, updates: seq<TPIDUpdate>, o: nat)
    requires Good(k) && FrozenCurrent(k) && IsActive(k.core, o)
    ensures KScatter(k.frozenT, updates, o) == KScatter(k.core.tpids.fwd, updates, o)
  {
    if updates == [] {
    } else {
      var u := updates[|updates| - 1];
      FrozenScatter(k, updates[..|updates| - 1], o);
      MinusCount(At(k.frozenT, u.tpid), Inactive(k.core), o);
    }
  }

  /** Hence stale TPID entries change only inactive slots. */
  lemma Phase1Alike(k: KState, l: State, updates: seq<TPIDUpdate>)
    requires Good(k) && FrozenCurrent(k) && Alike(k.core, l)
    ensures Alike(KPhase1(k.core, k.frozenT, updates), KPhase1(l, l.tpids.fwd, updates))
  {
    var f', l' := KPhase1(k.core, k.frozenT, updates), KPhase1(l, l.tpids.fwd, updates);
    forall p, o | 0 <= p < |f'.rows| && 0 <= o < NUM_ORDERS && f'.meta[o].active
      ensures f'.rows[p][o] == l'.rows[p][o]
    {
      FrozenScatter(k, updates, o);
    }
  }

  /** A slice read through a list with inactive orders in it is the slice of the list without them. */
  lemma {:induction false} EntriesSkipInactive(f: State, l: State, p: nat, eligible: seq<nat>, table: nat, now: int)
    requires Alike(f, l) && p < |f.rows|
    ensures Entries(f.meta, f.rows[p], eligible, table, now) ==
            Entries(l.meta, l.rows[p], Minus(eligible, Inactive(f)), table, now)
  {
    if eligible == [] {
    } else {
      var front, o := eligible[..|eligible| - 1], eligible[|eligible| - 1];
      EntriesSkipInactive(f, l, p, front, table, now);
      if o !in Inactive(f) {
        var rest := Minus(front, Inactive(f));
        assert (rest + [o])[..|rest + [o]| - 1] == rest;
      }
    }
  }

  lemma ListsAlike(k: KState, l: State, now: int)
    requires Good(k) && PairsInside(l) && FrozenCurrent(k) && Alike(k.core, l)
    ensures KLists(k.core, k.frozenB, now) == KLists(l, l.binTags.fwd, now)
  {
    var f := k.core;
    forall p: nat, t: nat | p < |f.pairs| && t < NUM_TABLES
      ensures KLists(f, k.frozenB, now)[p][t] == KLists(l, l.binTags.fwd, now)[p][t]
    {
      assert f.pairs[p] in f.pairs;
      EntriesSkipInactive(f, l, f.pairs[p].ppsID, At(k.frozenB, f.pairs[p].binTagID), t, now);
    }
    forall p: nat | p < |f.pairs| ensures KLists(f, k.frozenB, now)[p] == KLists(l, l.binTags.fwd, now)[p] {
    }
  }

  lemma EvictSetAlike(f: State, l: State, gone: set<nat>)
    requires Alike(f, l)
    ensures Alike(EvictSet(f, gone), EvictSet(l, gone))
  {
  }

  lemma StepAlike(k: KState, l: KState, act: KAction)
    requires Good(k) && Good(l) && Alike(k.core, l.core) && HasRow(act, |k.core.rows|)
    requires act.KCycled? ==> IndexedActive(k.core) && FrozenCurrent(k)
    ensures Alike(KStep(k, act, false).core, KStep(l, act, true).core)
  {
    match act
    case KIngested(evt, at) =>
    case KEvicted(o) => EvictSetAlike(k.core, l.core, {o});
    case Materialized =>
    case KPairAdded(_) =>
    case KPairRemoved(_) =>
    case KCycled(updates, now) =>
      var p := k.(core := Purge(k.core, now));
      EvictSetAlike(k.core, l.core, Expired(k.core, now));
      EvictKeepsIndex(k, Expired(k.core, now));
      Phase1Alike(p, Purge(l.core, now), updates);
  }

  /**
   * Over every disciplined run the engine reading frozen maps publishes, cycle by cycle, exactly the
   * lists of the engine reading the live maps.
   */
  lemma {:induction false} FrozenPublishesLive(k: KState, acts: seq<KAction>)
    requires Good(k) && HaveRows(acts, |k.core.rows|) && IndexedActive(k.core) && FrozenCurrent(k) && Disciplined(acts)
    ensures Publications(k, acts, false) == Publications(k, acts, true)
    ensures Alike(KRun(k, acts, false).core, KRun(k, acts, true).core)
    ensures IndexedActive(KRun(k, acts, false).core)
    ensures FrozenAfterIngest(acts) ==> FrozenCurrent(KRun(k, acts, false))
  {
    if acts == [] {
    } else {
      var front, last := acts[..|acts| - 1], acts[|acts| - 1];
      FrozenPublishesLive(k, front);
      var f, l := KRun(k, front, false), KRun(k, front, true);
      StepKeepsIndex(f, last, false);
      StepAlike(f, l, last);
      if last.KCycled? {
        ListsAlike(KRun(k, acts, false), KRun(k, acts, true).core, last.now);
      }
    }
  }

  lemma StartIsCurrent(numPPS: nat, pairs: seq<PairInfo>)
    requires PairsInside(Init(numPPS, pairs))
    ensures Good(KInit(numPPS, pairs)) && IndexedActive(KInit(numPPS, pairs).core)
    ensures FrozenCurrent(KInit(numPPS, pairs))
  {
  }

  // ---- Without discipline the engines part ----

  lemma OneListed(s: State, pair: PairInfo, now: int)
    requires Shaped(s) && pair.ppsID < |s.rows| && s.meta[0].active
    ensures KList(s, pair, [], HEURISTIC, now) == []
    ensures |KList(s, pair, [0], HEURISTIC, now)| == 1
  {
    var list: seq<nat> := [0];
    assert list[..|list| - 1] == [];
    var e := Entries(s.meta, s.rows[pair.ppsID], list, HEURISTIC, now);
    assert |e| == 1;
    SortDescFacts(Negated(Words(e)));
    var none: seq<ScoreEntry> := Entries(s.meta, s.rows[pair.ppsID], [], HEURISTIC, now);
    assert Negated(Words(none)) == [];
  }

  /** One order is ingested, then a cycle runs without updates and without a freeze. */
  function LateRun(evt: OrderEvent): seq<KAction> { [KIngested(evt, 1), KCycled([], 1)] }

  lemma OneIngested(k: KState, evt: OrderEvent, live: bool)
    requires Good(k)
    ensures HaveRows([KIngested(evt, 1)], |k.core.rows|)
    ensures KRun(k, [KIngested(evt, 1)], live) == k.(core := KIngest(k.core, evt, 1))
    ensures Publications(k, [KIngested(evt, 1)], live) == []
  {
    var acts: seq<KAction> := [KIngested(evt, 1)];
    assert acts[..|acts| - 1] == [];
    assert KRun(k, acts[..|acts| - 1], live) == k && Publications(k, acts[..|acts| - 1], live) == [];
  }

  lemma LateRunEnds(k: KState, evt: OrderEvent, live: bool)
    requires Good(k)
    ensures HaveRows(LateRun(evt), |k.core.rows|)
    ensures KRun(k, LateRun(evt), live) == k.(core := Purge(KIngest(k.core, evt, 1), 1))
  {
    var acts := LateRun(evt);
    assert acts[..|acts| - 1] == [KIngested(evt, 1)];
    OneIngested(k, evt, live);
  }

  lemma AddToEmpty()
    ensures At(Add(EMPTY_HALF, 0, [7]).fwd, 7) == [0]
  {
    AddAt(EMPTY_HALF, 0, [7], 7);
    assert Count([7], 7) == 1;
    assert Repeat(0, 1) == [0];
  }

  /** In a state without orders, the late order becomes the one live order, and an idle purge keeps it. */
  lemma LateState(s: State, evt: OrderEvent)
    requires Shaped(s) && s.binTags == EMPTY_HALF && evt.orderID == 0 && evt.binTags == [7]
    requires forall i :: 0 <= i < NUM_ORDERS ==> !s.meta[i].active
    ensures var c := Purge(KIngest(s, evt, 1), 1);
            c.meta[0].active && |c.rows| == |s.rows| && c.pairs == s.pairs && At(c.binTags.fwd, 7) == [0]
  {
    var m := KIngest(s, evt, 1);
    assert Expired(m, 1) == {};
    AddToEmpty();
    MinusNone([0], {});
  }

  /** An order ingested after the last freeze is missing from the frozen engine's next lists. */
  lemma StaleIndexMissesOrder(k: KState, evt: OrderEvent)
    requires Good(k) && k.core.binTags == EMPTY_HALF && k.frozenB == map[]
    requires forall i :: 0 <= i < NUM_ORDERS ==> !k.core.meta[i].active
    requires |k.core.pairs| > 0 && k.core.pairs[0].binTagID == 7
    requires evt.orderID == 0 && evt.binTags == [7]
    ensures HaveRows(LateRun(evt), |k.core.rows|)
    ensures Publications(k, LateRun(evt), false) != Publications(k, LateRun(evt), true)
  {
    var c := Purge(KIngest(k.core, evt, 1), 1);
    LateState(k.core, evt);
    LatePublication(k, evt, c, false);
    LatePublication(k, evt, c, true);
    ListsDiffer(c, 1);
  }

  lemma LatePublication(k: KState, evt: OrderEvent, c: State, live: bool)
    requires Good(k) && c == Purge(KIngest(k.core, evt, 1), 1)
    ensures HaveRows(LateRun(evt), |k.core.rows|) && Shaped(c) && PairsInside(c)
    ensures Publications(k, LateRun(evt), live) == [KLists(c, if live then c.binTags.fwd else k.frozenB, 1)]
  {
    LateRunEnds(k, evt, live);
    OneIngested(k, evt, live);
    var acts := LateRun(evt);
    assert acts[..|acts| - 1] == [KIngested(evt, 1)];
  }

  lemma ListsDiffer(c: State, now: int)
    requires Shaped(c) && PairsInside(c) && c.meta[0].active
    requires |c.pairs| > 0 && c.pairs[0].binTagID == 7 && At(c.binTags.fwd, 7) == [0]
    ensures KLists(c, map[], now) != KLists(c, c.binTags.fwd, now)
  {
    assert c.pairs[0] in c.pairs;
    OneListed(c, c.pairs[0], now);
    FirstList(c, map[], now);
    FirstList(c, c.binTags.fwd, now);
  }

  lemma FirstList(s: State, fwd: map<nat, seq<nat>>, now: int)
    requires Shaped(s) && PairsInside(s) && |s.pairs| > 0
    ensures s.pairs[0].ppsID < |s.rows|
    ensures KLists(s, fwd, now)[0][HEURISTIC] == KList(s, s.pairs[0], At(fwd, s.pairs[0].binTagID), HEURISTIC, now)
  {
    assert s.pairs[0] in s.pairs;
  }
}
