/** What every cycle of every Kotlin run publishes: lists in (score descending, id ascending) order. */
module KotlinRuns {
  import opened Common
  import opened Ranking
  import opened Quickselect
  import opened Index
  import opened SeqFacts
  import opened GoState
  import opened CriticalLaw
  import opened KotlinPacked
  import opened KotlinEngine
  import opened Headline
  import opened KotlinHotPath

  ghost predicate Int16Row(row: seq<int>) { forall o :: 0 <= o < |row| ==> -32768 <= row[o] <= 32767 }

  /** Every score is a 16-bit integer, the least one included. */
  ghost predicate Int16Cells(s: State) { forall p :: 0 <= p < |s.rows| ==> Int16Row(s.rows[p]) }

  lemma EvictKeepsCells(s: State, gone: set<nat>)
    requires Shaped(s) && Int16Cells(s)
    ensures Int16Cells(EvictSet(s, gone))
  {
    forall p | 0 <= p < |s.rows| ensures Int16Row(EvictSet(s, gone).rows[p]) {
      assert Int16Row(s.rows[p]);
    }
  }

  lemma Phase1KeepsCells(s: State, fwd: map<nat, seq<nat>>, updates: seq<TPIDUpdate>)
    requires Int16Cells(s)
    ensures Int16Cells(KPhase1(s, fwd, updates))
  {
    if updates != [] {
      var rows := KPhase1(s, fwd, updates).rows;
      forall p, o | 0 <= p < |rows| && 0 <= o < |rows[p]| ensures -32768 <= rows[p][o] <= 32767 {
        assert rows[p][o] == KCell(s.rows[p][o], Wrap32(KScatter(fwd, updates, o)));
      }
    }
  }

  lemma StepKeepsCells(k: KState, act: KAction, live: bool)
    requires Good(k) && HasRow(act, |k.core.rows|) && Int16Cells(k.core)
    ensures Int16Cells(KStep(k, act, live).core)
  {
    match act
    case KIngested(evt, at) =>
      if evt.orderID < NUM_ORDERS {
        forall p | 0 <= p < |k.core.rows| ensures Int16Row(k.core.rows[p][evt.orderID := KBase(evt)]) {
          assert Int16Row(k.core.rows[p]);
        }
      }
    case KEvicted(o) => EvictKeepsCells(k.core, {o});
    case Materialized =>
    case KPairAdded(_) =>
    case KPairRemoved(_) =>
    case KCycled(updates, now) =>
      var purged := k.(core := Purge(k.core, now));
      EvictKeepsCells(k.core, Expired(k.core, now));
      Phase1KeepsCells(purged.core, TpidsRead(purged, live), updates);
  }

  lemma {:induction false} RunKeepsCells(k: KState, acts: seq<KAction>, live: bool)
    requires Good(k) && HaveRows(acts, |k.core.rows|) && Int16Cells(k.core)
    ensures Int16Cells(KRun(k, acts, live).core)
  {
    if acts == [] {
    } else {
      RunKeepsCells(k, acts[..|acts| - 1], live);
      StepKeepsCells(KRun(k, acts[..|acts| - 1], live), acts[|acts| - 1], live);
    }
  }

  lemma {:induction false} EntriesPackable(meta: seq<OrderMeta>, row: seq<int>, eligible: seq<nat>, table: nat,
                                           now: int)
    requires |meta| == |row| == NUM_ORDERS && Int16Row(row)
    ensures AllPackable(Entries(meta, row, eligible, table, now))
    ensures table == HEURISTIC || table == LARGE ==> NegatesAlike(Entries(meta, row, eligible, table, now))
  {
    if eligible == [] {
    } else {
      EntriesPackable(meta, row, eligible[..|eligible| - 1], table, now);
    }
    EntryShape(meta, row, eligible, table, now);
  }

  /** What the last cycle of a run publishes: four lists for each pair tracked then. */
  ghost function LastLists(k: KState, acts: seq<KAction>, live: bool): (lists: seq<seq<seq<int>>>)
    requires Good(k) && HaveRows(acts, |k.core.rows|) && acts != [] && acts[|acts| - 1].KCycled?
    ensures |lists| == |KRun(k, acts, live).core.pairs|
    ensures forall p :: 0 <= p < |lists| ==> |lists[p]| == NUM_TABLES
  {
    var published := Publications(k, acts, live);
    published[|published| - 1]
  }

  /** The entries behind pair p and a table at the end of a run. */
  function SliceAfter(r: KState, p: nat, table: nat, now: int, live: bool): seq<ScoreEntry>
    requires Good(r) && p < |r.core.pairs| && r.core.pairs[p].ppsID < |r.core.rows|
  {
    var pair := r.core.pairs[p];
    Entries(r.core.meta, r.core.rows[pair.ppsID], At(TagsRead(r, live), pair.binTagID), table, now)
  }

  /**
   * Whatever run led here, and whether it read frozen or live maps, each list its last cycle publishes is
   * the ids of the first TOP_K of its entries in (score descending, id ascending) order, if and only if
   * no entry's score is the least 32-bit integer or every one's is. The two score tables always meet that;
   * the deadline tables fail it when some but not all of the ages are 2^31 seconds below zero.
   */
  lemma CyclesPublishInOrder(numPPS: nat, pairs: seq<PairInfo>, acts: seq<KAction>, live: bool, p: nat, table: nat)
    requires PairsInside(Init(numPPS, pairs)) && HaveRows(acts, numPPS)
    requires acts != [] && acts[|acts| - 1].KCycled?
    requires p < |KRun(KInit(numPPS, pairs), acts, live).core.pairs| && table < NUM_TABLES
    ensures var r := KRun(KInit(numPPS, pairs), acts, live);
            && r.core.pairs[p].ppsID < |r.core.rows|
            && var slice := SliceAfter(r, p, table, acts[|acts| - 1].now, live);
               var list := LastLists(KInit(numPPS, pairs), acts, live)[p][table];
               && list == FirstWords(Words(slice))
               && (list == Ids(FirstInOrder(slice)) <==> NegatesAlike(slice))
               && (table == HEURISTIC || table == LARGE ==> NegatesAlike(slice))
  {
    var k := KInit(numPPS, pairs);
    var r := KRun(k, acts, live);
    assert Int16Cells(k.core);
    RunKeepsCells(k, acts, live);
    assert r.core.pairs[p] in r.core.pairs;
    SliceInOrderExactly(r, p, table, acts[|acts| - 1].now, live);
  }

  lemma SliceInOrderExactly(r: KState, p: nat, table: nat, now: int, live: bool)
    requires Good(r) && Int16Cells(r.core) && p < |r.core.pairs| && r.core.pairs[p].ppsID < |r.core.rows|
    ensures var slice := SliceAfter(r, p, table, now, live);
            && (FirstWords(Words(slice)) == Ids(FirstInOrder(slice)) <==> NegatesAlike(slice))
            && (table == HEURISTIC || table == LARGE ==> NegatesAlike(slice))
  {
    var row, eligible := r.core.rows[r.core.pairs[p].ppsID], At(TagsRead(r, live), r.core.pairs[p].binTagID);
    EntriesPackable(r.core.meta, row, eligible, table, now);
    EntryShape(r.core.meta, row, eligible, table, now);
    ListInOrderExactly(Entries(r.core.meta, row, eligible, table, now));
  }

  // ---- The critical list ----

  /**
   * The critical list a cycle publishes for a pair whose deadline list is in order, whatever run led here
   * and whichever maps it read. If every candidate's cut agrees it is, id by id, a prefix of the deadline
   * list; and the scores it shows are the critical part of those of the deadline list if and only if
   * ShowsCriticalPart.
   */
  lemma CriticalListOfRun(numPPS: nat, pairs: seq<PairInfo>, acts: seq<KAction>, live: bool, p: nat)
    requires PairsInside(Init(numPPS, pairs)) && HaveRows(acts, numPPS)
    requires acts != [] && acts[|acts| - 1].KCycled?
    requires p < |KRun(KInit(numPPS, pairs), acts, live).core.pairs|
    ensures var r, now := KRun(KInit(numPPS, pairs), acts, live), acts[|acts| - 1].now;
            var pair, lists := r.core.pairs[p], LastLists(KInit(numPPS, pairs), acts, live)[p];
            && pair.ppsID < |r.core.rows|
            && var pbt, crit := SliceAfter(r, p, PBT, now, live), SliceAfter(r, p, CRITICAL, now, live);
               NegatesAlike(pbt) ==> CriticalListLaw(r.core.meta, r.core.rows[pair.ppsID],
                                                     At(TagsRead(r, live), pair.binTagID), now, lists, pbt, crit)
  {
    var r, now := KRun(KInit(numPPS, pairs), acts, live), acts[|acts| - 1].now;
    CyclesPublishInOrder(numPPS, pairs, acts, live, p, PBT);
    CyclesPublishInOrder(numPPS, pairs, acts, live, p, CRITICAL);
    var pair := r.core.pairs[p];
    if NegatesAlike(SliceAfter(r, p, PBT, now, live)) {
      CriticalLists(r.core.meta, r.core.rows[pair.ppsID], At(TagsRead(r, live), pair.binTagID), now,
                    LastLists(KInit(numPPS, pairs), acts, live)[p]);
    }
  }

  /** What the two deadline lists of a pair show, given the entries behind them. */
  ghost predicate CriticalListLaw(meta: seq<OrderMeta>, row: seq<int>, eligible: seq<nat>, now: int,
                                  lists: seq<seq<int>>, pbt: seq<ScoreEntry>, crit: seq<ScoreEntry>)
    requires |meta| == |row| == NUM_ORDERS && |lists| == NUM_TABLES
  {
    var shown := Scores(FirstInOrder(pbt));
    && lists[PBT] == Ids(FirstInOrder(pbt)) && lists[CRITICAL] == Ids(FirstInOrder(crit))
    && (CutsAgree(meta, eligible, now) ==> lists[CRITICAL] <= lists[PBT] && |lists[CRITICAL]| == Min(|crit|, TOP_K))
    && (Scores(FirstInOrder(crit)) == PrefixAtLeast(shown, -CRITICAL_CUTOFF)
        <==> ShowsCriticalPart(meta, row, eligible, now, shown))
  }

  lemma CriticalLists(meta: seq<OrderMeta>, row: seq<int>, eligible: seq<nat>, now: int, lists: seq<seq<int>>)
    requires |meta| == |row| == NUM_ORDERS && |lists| == NUM_TABLES
    requires NegatesAlike(Entries(meta, row, eligible, PBT, now))
    requires lists[PBT] == FirstWords(Words(Entries(meta, row, eligible, PBT, now)))
    requires lists[CRITICAL] == FirstWords(Words(Entries(meta, row, eligible, CRITICAL, now)))
    ensures CriticalListLaw(meta, row, eligible, now, lists, Entries(meta, row, eligible, PBT, now),
                            Entries(meta, row, eligible, CRITICAL, now))
  {
    var pbt, crit := Entries(meta, row, eligible, PBT, now), Entries(meta, row, eligible, CRITICAL, now);
    DeadlinesPackable(meta, row, eligible, now);
    ListIsFirstInOrder(pbt);
    ListIsFirstInOrder(crit);
    FirstInOrderIsTop(pbt);
    FirstInOrderIsTop(crit);
    CriticalLawExactly(meta, row, eligible, now, FirstInOrder(pbt), FirstInOrder(crit));
    if CutsAgree(meta, eligible, now) {
      CriticalListIsPrefix(meta, row, eligible, now);
    }
  }

  // ---- Frozen against live ----

  lemma {:induction false} StartupDisciplined(ingests: seq<KAction>, rest: seq<KAction>)
    requires forall act :: act in ingests ==> act.KIngested?
    requires forall act :: act in rest ==> !act.KIngested?
    ensures Disciplined(ingests) && FrozenAfterIngest(ingests + [Materialized] + rest)
    ensures Disciplined(ingests + [Materialized] + rest)
    decreases |rest|, |ingests|
  {
    var acts := ingests + [Materialized] + rest;
    if rest != [] {
      StartupDisciplined(ingests, rest[..|rest| - 1]);
      assert acts[..|acts| - 1] == ingests + [Materialized] + rest[..|rest| - 1];
    } else {
      assert acts[..|acts| - 1] == ingests;
      if ingests != [] {
        StartupDisciplined(ingests[..|ingests| - 1], []);
        assert ingests[|ingests| - 1] in ingests;
      }
      assert Disciplined(acts[..|acts| - 1]);
    }
  }

  /**
   * The startup sequence: orders are ingested, both indexes are frozen once, and from then on only
   * evictions, freezes, pair changes and cycles happen. Every cycle then publishes what an engine reading the live maps
   * would.
   */
  lemma StartupPublishesLive(numPPS: nat, pairs: seq<PairInfo>, ingests: seq<KAction>, rest: seq<KAction>)
    requires PairsInside(Init(numPPS, pairs)) && HaveRows(ingests + [Materialized] + rest, numPPS)
    requires forall act :: act in ingests ==> act.KIngested?
    requires forall act :: act in rest ==> !act.KIngested?
    ensures var acts := ingests + [Materialized] + rest;
            Publications(KInit(numPPS, pairs), acts, false) == Publications(KInit(numPPS, pairs), acts, true)
  {
    StartupDisciplined(ingests, rest);
    StartIsCurrent(numPPS, pairs);
    FrozenPublishesLive(KInit(numPPS, pairs), ingests + [Materialized] + rest);
  }

  /** Both lists name every active order equally often. */
  ghost predicate SameActive(s: State, a: seq<nat>, b: seq<nat>)
    requires Shaped(s)
  {
    forall o: nat :: IsActive(s, o) ==> Count(a, o) == Count(b, o)
  }

  /**
   * The exact condition, for states that agree on all active orders and a pair whose candidates fit: the
   * engine reading the frozen list publishes the four lists of the one reading the live list if and only
   * if the two name every active order equally often.
   */
  lemma SameListExactly(f: State, l: State, pair: PairInfo, frozen: seq<nat>, live: seq<nat>, now: int)
    requires Alike(f, l) && Int16Cells(f) && Int16Cells(l) && pair.ppsID < |f.rows|
    requires |Entries(f.meta, f.rows[pair.ppsID], frozen, HEURISTIC, now)| <= TOP_K
    requires |Entries(l.meta, l.rows[pair.ppsID], live, HEURISTIC, now)| <= TOP_K
    ensures (forall t: nat :: t < NUM_TABLES ==> KList(f, pair, frozen, t, now) == KList(l, pair, live, t, now))
            <==> SameActive(f, frozen, live)
  {
    if SameActive(f, frozen, live) {
      forall t: nat | t < NUM_TABLES ensures KList(f, pair, frozen, t, now) == KList(l, pair, live, t, now) {
        SameBags(f, l, pair.ppsID, frozen, live, t, now);
        PermutedWords(Entries(f.meta, f.rows[pair.ppsID], frozen, t, now),
                      Entries(l.meta, l.rows[pair.ppsID], live, t, now));
      }
    }
    if KList(f, pair, frozen, HEURISTIC, now) == KList(l, pair, live, HEURISTIC, now) {
      SameHeuristic(f, l, pair, frozen, live, now);
    }
  }

  /** Equal heuristic lists that hold every candidate name the same orders. */
  lemma SameHeuristic(f: State, l: State, pair: PairInfo, frozen: seq<nat>, live: seq<nat>, now: int)
    requires Alike(f, l) && Int16Cells(f) && Int16Cells(l) && pair.ppsID < |f.rows|
    requires |Entries(f.meta, f.rows[pair.ppsID], frozen, HEURISTIC, now)| <= TOP_K
    requires |Entries(l.meta, l.rows[pair.ppsID], live, HEURISTIC, now)| <= TOP_K
    requires KList(f, pair, frozen, HEURISTIC, now) == KList(l, pair, live, HEURISTIC, now)
    ensures SameActive(f, frozen, live)
  {
    var a := Entries(f.meta, f.rows[pair.ppsID], frozen, HEURISTIC, now);
    var b := Entries(l.meta, l.rows[pair.ppsID], live, HEURISTIC, now);
    EntriesPackable(f.meta, f.rows[pair.ppsID], frozen, HEURISTIC, now);
    EntriesPackable(l.meta, l.rows[pair.ppsID], live, HEURISTIC, now);
    WholeListBag(a);
    WholeListBag(b);
    assert multiset(Ids(a)) == multiset(Ids(b));
    forall o: nat | IsActive(f, o) ensures Count(frozen, o) == Count(live, o) {
      EntryCounts(f.meta, f.rows[pair.ppsID], frozen, HEURISTIC, now, o);
      EntryCounts(l.meta, l.rows[pair.ppsID], live, HEURISTIC, now, o);
    }
  }

  /** The entries of one order on both sides. */
  lemma SameEntryCount(f: State, l: State, p: nat, frozen: seq<nat>, live: seq<nat>, t: nat, now: int, e: ScoreEntry)
    requires Alike(f, l) && p < |f.rows| && SameActive(f, frozen, live)
    ensures Count(Entries(f.meta, f.rows[p], frozen, t, now), e) == Count(Entries(l.meta, l.rows[p], live, t, now), e)
  {
    var a, b := Entries(f.meta, f.rows[p], frozen, t, now), Entries(l.meta, l.rows[p], live, t, now);
    EntryShape(f.meta, f.rows[p], frozen, t, now);
    EntryShape(l.meta, l.rows[p], live, t, now);
    if 0 <= e.id && IsActive(f, e.id) {
      var key := RankKey(f.rows[p][e.id], f.meta[e.id].pbtDeadline, t, now);
      EntryCounts(f.meta, f.rows[p], frozen, t, now, e.id);
      EntryCounts(l.meta, l.rows[p], live, t, now, e.id);
      OneKeyCount(a, e.id, key, e);
      OneKeyCount(b, e.id, key, e);
    } else {
      assert e !in a && e !in b;
    }
  }

  /** When all entries of an id have one score, an entry is counted by the id. */
  lemma {:induction false} OneKeyCount(s: seq<ScoreEntry>, id: int, key: int, e: ScoreEntry)
    requires e.id == id && forall x :: x in s && x.id == id ==> x.score == key
    ensures Count(s, e) == if e.score == key then Count(Ids(s), id) else 0
  {
    if s == [] {
    } else {
      var front, last := s[..|s| - 1], s[|s| - 1];
      SnocSplit(s);
      SnocSplit(Ids(s));
      assert Ids(s)[..|s| - 1] == Ids(front) && last in s;
      OneKeyCount(front, id, key, e);
    }
  }

  lemma SameBags(f: State, l: State, p: nat, frozen: seq<nat>, live: seq<nat>, t: nat, now: int)
    requires Alike(f, l) && p < |f.rows| && SameActive(f, frozen, live)
    ensures multiset(Entries(f.meta, f.rows[p], frozen, t, now)) == multiset(Entries(l.meta, l.rows[p], live, t, now))
  {
    var a, b := Entries(f.meta, f.rows[p], frozen, t, now), Entries(l.meta, l.rows[p], live, t, now);
    forall e: ScoreEntry ensures multiset(a)[e] == multiset(b)[e] {
      SameEntryCount(f, l, p, frozen, live, t, now, e);
      assert multiset(a)[e] == Count(a, e) && multiset(b)[e] == Count(b, e);
    }
  }

  // ---- Scratch arrays ----

  lemma NoRepeatsSifted(list: seq<nat>, gone: set<nat>)
    requires NoRepeats(list)
    ensures NoRepeats(Minus(list, gone))
  {
    NoRepeatsCounted(list);
    NoRepeatsCounted(Minus(list, gone));
    forall x: int ensures Count<int>(Minus(list, gone), x) <= 1 {
      if x >= 0 {
        MinusCount(list, gone, x);
        assert Count<int>(list, x) <= 1;
      }
    }
  }

  lemma AddKeepsDistinct(h: Half, o: nat, keys: seq<nat>, tag: nat)
    requires NoRepeats(At(h.fwd, tag)) && Count(keys, tag) <= 1
    ensures NoRepeats(At(Add(h, o, keys).fwd, tag))
  {
    AddAt(h, o, keys, tag);
    NoRepeatsSifted(At(h.fwd, tag), {o});
    assert o !in Minus(At(h.fwd, tag), {o});
  }

  /** The action does not register an order under the tag twice. */
  ghost predicate TagOnce(act: KAction, tag: nat) { act.KIngested? ==> Count(act.evt.binTags, tag) <= 1 }

  ghost predicate BothDistinct(k: KState, tag: nat)
  {
    NoRepeats(At(k.core.binTags.fwd, tag)) && NoRepeats(At(k.frozenB, tag))
  }

  lemma StepKeepsDistinct(k: KState, act: KAction, live: bool, tag: nat)
    requires Good(k) && HasRow(act, |k.core.rows|) && BothDistinct(k, tag) && TagOnce(act, tag)
    ensures BothDistinct(KStep(k, act, live), tag)
  {
    match act
    case KIngested(evt, at) => AddKeepsDistinct(k.core.binTags, evt.orderID, evt.binTags, tag);
    case KEvicted(o) => NoRepeatsSifted(At(k.core.binTags.fwd, tag), {o});
    case Materialized =>
    case KPairAdded(_) =>
    case KPairRemoved(_) =>
    case KCycled(updates, now) => NoRepeatsSifted(At(k.core.binTags.fwd, tag), Expired(k.core, now));
  }

  lemma {:induction false} RunKeepsDistinct(k: KState, acts: seq<KAction>, live: bool, tag: nat)
    requires Good(k) && HaveRows(acts, |k.core.rows|)
    requires BothDistinct(k, tag) && forall act :: act in acts ==> TagOnce(act, tag)
    ensures BothDistinct(KRun(k, acts, live), tag)
  {
    if acts == [] {
    } else {
      RunKeepsDistinct(k, acts[..|acts| - 1], live, tag);
      StepKeepsDistinct(KRun(k, acts[..|acts| - 1], live), acts[|acts| - 1], live, tag);
    }
  }

  /**
   * When no event names a pair's tag twice, no cycle of any run can fill a scratch array beyond its
   * NUM_ORDERS words for that pair, whether it reads the live lists or frozen ones of any age, and its
   * words are pairwise distinct, so that its selections keep to the smaller cost bound.
   */
  lemma ScratchNeverOverflows(numPPS: nat, pairs: seq<PairInfo>, acts: seq<KAction>, live: bool, p: nat, table: nat,
                              now: int)
    requires PairsInside(Init(numPPS, pairs)) && HaveRows(acts, numPPS)
    requires var r := KRun(KInit(numPPS, pairs), acts, live);
             p < |r.core.pairs| && forall act :: act in acts ==> TagOnce(act, r.core.pairs[p].binTagID)
    ensures var r := KRun(KInit(numPPS, pairs), acts, live);
            var pair := r.core.pairs[p];
            && pair.ppsID < |r.core.rows|
            && Fits(r.core.meta, r.core.rows[pair.ppsID], At(TagsRead(r, live), pair.binTagID), now)
            && var words := Words(SliceAfter(r, p, table, now, live));
               |words| <= NUM_ORDERS && DistinctKeys(words, Rank, |words|)
  {
    var k := KInit(numPPS, pairs);
    var r := KRun(k, acts, live);
    var pair := r.core.pairs[p];
    RunKeepsDistinct(k, acts, live, pair.binTagID);
    assert Int16Cells(k.core);
    RunKeepsCells(k, acts, live);
    assert pair in r.core.pairs;
    DistinctSlice(r.core.meta, r.core.rows[pair.ppsID], At(TagsRead(r, live), pair.binTagID), table, now);
  }

  lemma DistinctSlice(meta: seq<OrderMeta>, row: seq<int>, eligible: seq<nat>, table: nat, now: int)
    requires |meta| == |row| == NUM_ORDERS && Int16Row(row) && NoRepeats(eligible)
    ensures Fits(meta, row, eligible, now) && |Entries(meta, row, eligible, table, now)| <= NUM_ORDERS
    ensures var words := Words(Entries(meta, row, eligible, table, now)); DistinctKeys(words, Rank, |words|)
  {
    var slice := Entries(meta, row, eligible, table, now);
    SliceFits(meta, row, eligible, HEURISTIC, now);
    SliceFits(meta, row, eligible, table, now);
    EntriesFollowList(meta, row, eligible, table, now);
    EntriesPackable(meta, row, eligible, table, now);
    forall i, j | 0 <= i < j < |slice| ensures slice[i].id != slice[j].id {
      assert Ids(slice)[i] != Ids(slice)[j];
    }
    DistinctWords(slice);
  }
}
