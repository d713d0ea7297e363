/** The Kotlin engine against the naive book: what a cycle publishes is a function of the book alone. */
module KotlinBook {
  import opened Common
  import opened SeqFacts
  import opened Ranking
  import opened GoState
  import opened Naive
  import opened Headline
  import opened KotlinPacked
  import opened KotlinEngine
  import opened KotlinRuns

  // ---- The book of a Kotlin run ----

  ghost function KRescored(n: NaiveOrder, updates: seq<TPIDUpdate>): NaiveOrder
  {
    n.(score := KCell(n.score, GatherBy(KDiff, n.tpids, updates)))
  }

  ghost function KRescore(b: Book, updates: seq<TPIDUpdate>): Book { map o | o in b :: KRescored(b[o], updates) }

  ghost function KBookStep(b: Book, act: KAction): Book
  {
    match act
    case KIngested(evt, at) => if evt.orderID < NUM_ORDERS then b[evt.orderID := Booked(evt, at, KBase(evt))] else b
    case KEvicted(o) => b - {o}
    case KCycled(updates, now) => KRescore(Unexpired(b, now), updates)
    case _ => b
  }

  ghost function KBook(acts: seq<KAction>): Book
  {
    if acts == [] then map[] else KBookStep(KBook(acts[..|acts| - 1]), acts[|acts| - 1])
  }

  // ---- The engine follows it ----

  /** The book and the state of an engine that reads the live maps. */
  ghost predicate KCoupled(s: State, b: Book) { Linked(s, b) && ScoresWithin(b, -32768, 32767) }

  lemma CellOfGather(score: int, delta: int)
    ensures KCell(score, Wrap32(delta)) == KCell(score, delta)
  {
    Wrap32Add(delta, score);
  }

  lemma KRescoreByCells(b: Book, updates: seq<TPIDUpdate>)
    ensures KRescore(b, updates) == BookBy(KCell, KDiff, b, updates)
  {
    forall o | o in b
      ensures KRescored(b[o], updates) ==
              b[o].(score := KCell(b[o].score, Wrap32(GatherBy(KDiff, b[o].tpids, updates))))
    {
      CellOfGather(b[o].score, GatherBy(KDiff, b[o].tpids, updates));
    }
  }

  lemma KRescoreNothing(b: Book)
    requires ScoresWithin(b, -32768, 32767)
    ensures KRescore(b, []) == b
  {
    forall o | o in b ensures KRescored(b[o], []) == b[o] {
      assert GatherBy(KDiff, b[o].tpids, []) == 0;
    }
  }

  lemma KPhase1Coupled(s: State, b: Book, updates: seq<TPIDUpdate>)
    requires KCoupled(s, b)
    ensures KCoupled(KPhase1(s, s.tpids.fwd, updates), KRescore(b, updates))
  {
    if updates == [] {
      KRescoreNothing(b);
    } else {
      KRescoreByCells(b, updates);
      RowsLinked(s, b, KCell, KDiff, updates);
    }
  }

  lemma LiveStepCoupled(k: KState, b: Book, act: KAction)
    requires Good(k) && HasRow(act, |k.core.rows|) && KCoupled(k.core, b)
    ensures KCoupled(KStep(k, act, true).core, KBookStep(b, act))
  {
    match act
    case KIngested(evt, at) =>
      if evt.orderID < NUM_ORDERS {
        IngestLinked(k.core, b, evt, at, KBase(evt));
      }
    case KEvicted(o) => EvictLinked(k.core, b, o);
    case Materialized =>
    case KPairAdded(_) => PairsLinked(k.core, b, KStep(k, act, true).core.pairs);
    case KPairRemoved(_) => PairsLinked(k.core, b, KStep(k, act, true).core.pairs);
    case KCycled(updates, now) =>
      PurgeLinked(k.core, b, now);
      KPhase1Coupled(Purge(k.core, now), Unexpired(b, now), updates);
  }

  /** In every run the registry, index and matrix of an engine reading the live maps are the book's. */
  lemma {:induction false} LiveRunCoupled(numPPS: nat, pairs: seq<PairInfo>, acts: seq<KAction>)
    requires PairsInside(Init(numPPS, pairs)) && HaveRows(acts, numPPS)
    ensures KCoupled(KRun(KInit(numPPS, pairs), acts, true).core, KBook(acts))
  {
    if acts == [] {
      InitLinked(numPPS, pairs);
    } else {
      var front := acts[..|acts| - 1];
      LiveRunCoupled(numPPS, pairs, front);
      LiveStepCoupled(KRun(KInit(numPPS, pairs), front, true), KBook(front), acts[|acts| - 1]);
    }
  }

  // ---- What is published ----

  /** Rearranged slices agree on everything a list depends on. */
  lemma SameSlice(a: seq<ScoreEntry>, b: seq<ScoreEntry>)
    requires multiset(a) == multiset(b)
    ensures forall e :: e in a <==> e in b
  {
    forall e: ScoreEntry ensures e in a <==> e in b {
      assert e in a <==> e in multiset(a);
      assert e in b <==> e in multiset(b);
    }
  }

  /**
   * A list the book determines: the ids of the first TOP_K candidates in (score descending, id ascending)
   * order, each as often as it names the tag, if and only if no candidate's key is the least 32-bit
   * integer, or every one's is. Scores never are.
   */
  ghost predicate ListOfBook(list: seq<int>, b: Book, tag: nat, table: nat, now: int)
  {
    var slice := BookSlice(b, tag, table, now, NUM_ORDERS);
    && list == FirstWords(Words(slice))
    && (list == Ids(FirstInOrder(slice)) <==> NegatesAlike(slice))
    && (table == HEURISTIC || table == LARGE ==> NegatesAlike(slice))
  }

  lemma BookListInOrder(s: State, b: Book, pair: PairInfo, table: nat, now: int)
    requires KCoupled(s, b) && Int16Cells(s) && pair.ppsID < |s.rows|
    ensures ListOfBook(KList(s, pair, At(s.binTags.fwd, pair.binTagID), table, now), b, pair.binTagID, table, now)
  {
    var slice, entries := BookSlice(b, pair.binTagID, table, now, NUM_ORDERS), PairEntries(s, pair, table, now);
    EntriesAreBookSlice(s, b, pair, table, now);
    PermutedWords(entries, slice);
    EntriesPackable(s.meta, s.rows[pair.ppsID], At(s.binTags.fwd, pair.binTagID), table, now);
    EntryShape(s.meta, s.rows[pair.ppsID], At(s.binTags.fwd, pair.binTagID), table, now);
    SameSlice(entries, slice);
    ListInOrderExactly(slice);
  }

  lemma LiveListsOfBook(numPPS: nat, pairs: seq<PairInfo>, acts: seq<KAction>, p: nat, table: nat)
    requires PairsInside(Init(numPPS, pairs)) && HaveRows(acts, numPPS)
    requires acts != [] && acts[|acts| - 1].KCycled?
    requires p < |KRun(KInit(numPPS, pairs), acts, true).core.pairs| && table < NUM_TABLES
    ensures ListOfBook(LastLists(KInit(numPPS, pairs), acts, true)[p][table], KBook(acts),
                       KRun(KInit(numPPS, pairs), acts, true).core.pairs[p].binTagID, table, acts[|acts| - 1].now)
  {
    var k := KInit(numPPS, pairs);
    var s := KRun(k, acts, true).core;
    LiveRunCoupled(numPPS, pairs, acts);
    assert Int16Cells(k.core);
    RunKeepsCells(k, acts, true);
    assert s.pairs[p] in s.pairs;
    BookListInOrder(s, KBook(acts), s.pairs[p], table, acts[|acts| - 1].now);
  }

  /**
   * After any run of an engine that reads the live maps, and any disciplined run of one that reads frozen
   * copies, each list of the last cycle is the book's.
   */
  lemma PublishedListsOfBook(numPPS: nat, pairs: seq<PairInfo>, acts: seq<KAction>, live: bool, p: nat, table: nat)
    requires PairsInside(Init(numPPS, pairs)) && HaveRows(acts, numPPS) && (live || Disciplined(acts))
    requires acts != [] && acts[|acts| - 1].KCycled?
    requires p < |KRun(KInit(numPPS, pairs), acts, live).core.pairs| && table < NUM_TABLES
    ensures ListOfBook(LastLists(KInit(numPPS, pairs), acts, live)[p][table], KBook(acts),
                       KRun(KInit(numPPS, pairs), acts, live).core.pairs[p].binTagID, table, acts[|acts| - 1].now)
  {
    if !live {
      StartIsCurrent(numPPS, pairs);
      FrozenPublishesLive(KInit(numPPS, pairs), acts);
    }
    LiveListsOfBook(numPPS, pairs, acts, p, table);
  }

  // ---- A deadline list out of order ----

  /** Due at time 1, and due 2^31 seconds later. */
  const DUE: OrderEvent := OrderEvent(1, 1.0, 1, [], [7], 0.5)
  const OVERDUE_NEVER: OrderEvent := OrderEvent(0, 1.0, 0x8000_0000 + 1, [], [7], 0.5)

  const TWO_DEADLINES: seq<KAction> := [KIngested(OVERDUE_NEVER, 1), KIngested(DUE, 1), Materialized, KCycled([], 1)]

  /** The order due in 2^31 seconds is published ahead of the one due now. */
  lemma DeadlinesOutOfOrder(numPPS: nat, pairs: seq<PairInfo>, live: bool)
    requires PairsInside(Init(numPPS, pairs)) && |pairs| > 0 && pairs[0].binTagID == 7
    ensures HaveRows(TWO_DEADLINES, numPPS) && KRun(KInit(numPPS, pairs), TWO_DEADLINES, live).core.pairs == pairs
    ensures LastLists(KInit(numPPS, pairs), TWO_DEADLINES, live)[0][PBT] == [0, 1]
    ensures RankKey(0, DUE.pbtDeadline, PBT, 1) > RankKey(0, OVERDUE_NEVER.pbtDeadline, PBT, 1)
  {
    PairsStay(KInit(numPPS, pairs), TWO_DEADLINES, live);
    TwoDeadlinesDisciplined();
    PublishedListsOfBook(numPPS, pairs, TWO_DEADLINES, live, 0, PBT);
    TwoDeadlinesBook();
    TwoSlice(KBook(TWO_DEADLINES));
    PermutedWords(BookSlice(KBook(TWO_DEADLINES), 7, PBT, 1, NUM_ORDERS), TWO_ENTRIES);
    TwoWords();
  }

  /** Without pair changes a run ends with the pairs it began with. */
  lemma {:induction false} PairsStay(k: KState, acts: seq<KAction>, live: bool)
    requires Good(k) && forall i :: 0 <= i < |acts| ==> !acts[i].KPairAdded? && !acts[i].KPairRemoved?
    ensures HaveRows(acts, |k.core.rows|) && KRun(k, acts, live).core.pairs == k.core.pairs
  {
    if acts == [] {
    } else {
      PairsStay(k, acts[..|acts| - 1], live);
    }
  }

  lemma TwoDeadlinesDisciplined()
    ensures Disciplined(TWO_DEADLINES)
  {
    var acts := TWO_DEADLINES;
    assert acts[..3][..2] == acts[..2] && acts[..2][..1] == acts[..1] && acts[..1][..0] == [];
    assert Disciplined(acts[..1]);
    assert Disciplined(acts[..2]);
    assert Disciplined(acts[..3]) && FrozenAfterIngest(acts[..3]);
  }

  /** The book with the two orders. */
  ghost predicate HoldsTwo(b: Book)
  {
    && b.Keys == {0, 1}
    && b[0] == Booked(OVERDUE_NEVER, 1, KBase(OVERDUE_NEVER)) && b[1] == Booked(DUE, 1, KBase(DUE))
  }

  lemma TwoDeadlinesBook()
    ensures HoldsTwo(KBook(TWO_DEADLINES))
  {
    var acts := TWO_DEADLINES;
    assert acts[..3][..2] == acts[..2] && acts[..2][..1] == acts[..1] && acts[..1][..0] == [];
    assert KBook(acts[..1]) == KBookStep(map[], acts[0]);
    assert KBook(acts[..2]) == KBookStep(KBook(acts[..1]), acts[1]);
    assert HoldsTwo(KBook(acts[..2]));
    assert KBook(acts[..3]) == KBook(acts[..2]);
    IdleCycle(KBook(acts[..3]));
  }

  /** A cycle without updates that finds nothing expired leaves the book alone. */
  lemma IdleCycle(b: Book)
    requires forall o :: o in b ==> !Expires(b[o], 1) && -32768 <= b[o].score <= 32767
    ensures KBookStep(b, KCycled([], 1)) == b
  {
    assert Unexpired(b, 1) == b;
    KRescoreNothing(b);
  }

  const TWO_ENTRIES: seq<ScoreEntry> := [ScoreEntry(INT32_MIN, 0), ScoreEntry(0, 1)]

  lemma TwoWeights(b: Book, o: nat)
    requires HoldsTwo(b)
    ensures Weight(b, 7, PBT, 1, o) == if o < 2 then 1 else 0
    ensures o < 2 ==> BookKey(b, PBT, 1, o) == if o == 0 then INT32_MIN else 0
  {
    assert Count([7], 7) == 1;
    assert o in b <==> o in b.Keys;
  }

  lemma TwoCounted(e: ScoreEntry)
    ensures multiset(TWO_ENTRIES)[e] == if e == ScoreEntry(INT32_MIN, 0) || e == ScoreEntry(0, 1) then 1 else 0
  {
    assert multiset(TWO_ENTRIES) == multiset{ScoreEntry(INT32_MIN, 0), ScoreEntry(0, 1)};
  }

  lemma TwoSlice(b: Book)
    requires HoldsTwo(b)
    ensures multiset(BookSlice(b, 7, PBT, 1, NUM_ORDERS)) == multiset(TWO_ENTRIES)
  {
    var slice := BookSlice(b, 7, PBT, 1, NUM_ORDERS);
    forall e: ScoreEntry ensures Count(slice, e) == Count(TWO_ENTRIES, e) {
      TwoCounted(e);
      TwoInSlice(b, e);
    }
    SameCounts(slice, TWO_ENTRIES);
  }

  lemma SameCounts<T>(a: seq<T>, b: seq<T>)
    requires forall x: T :: Count(a, x) == Count(b, x)
    ensures multiset(a) == multiset(b)
  {
    forall x: T ensures multiset(a)[x] == multiset(b)[x] {
      assert Count(a, x) == Count(b, x);
    }
  }

  lemma TwoInSlice(b: Book, e: ScoreEntry)
    requires HoldsTwo(b)
    ensures Count(BookSlice(b, 7, PBT, 1, NUM_ORDERS), e) ==
            if e == ScoreEntry(INT32_MIN, 0) || e == ScoreEntry(0, 1) then 1 else 0
  {
    var n := Count(BookSlice(b, 7, PBT, 1, NUM_ORDERS), e);
    BookSliceCount(b, 7, PBT, 1, NUM_ORDERS, e);
    if e.id == 0 || e.id == 1 {
      TwoWeights(b, e.id);
      assert n == if e.score == (if e.id == 0 then INT32_MIN else 0) then 1 else 0;
    } else if e.id > 1 {
      TwoWeights(b, e.id);
      assert n == 0;
    }
  }

  lemma TwoWords()
    ensures FirstWords(Words(TWO_ENTRIES)) == [0, 1]
  {
    var s := TWO_ENTRIES;
    var ranks := Negated(Words(s));
    var first, second := Rank(Pack(s[0])), Rank(Pack(s[1]));
    assert ranks == [first, second] && first > second && ranks[1..] == [second] && ranks[1..][1..] == [];
    assert SortDesc([second]) == [second];
    assert SortDesc(ranks) == [first, second];
  }
}
