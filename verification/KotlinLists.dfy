/** What a published Kotlin list says, in terms of the fields of the orders themselves. */
module KotlinLists {
  import opened Common
  import opened SeqFacts
  import opened Ranking
  import opened GoState
  import opened Naive
  import opened Headline
  import opened RankedLists
  import opened KotlinPacked
  import opened KotlinEngine
  import opened KotlinRuns
  import opened KotlinBook

  // ---- A list is the best of its slice by word ----

  /** The rank of an order's word in a table. */
  ghost function BookWord(b: Book, table: nat, now: int, id: int): int
  {
    Rank(Pack(ScoreEntry(BookKey(b, table, now, id), id)))
  }

  function ByWord(e: ScoreEntry): ScoreEntry { ScoreEntry(Rank(Pack(e)), e.id) }

  /** A ranked entry of the slice gives its id back. */
  lemma RankUnpacks(slice: seq<ScoreEntry>, e: ScoreEntry)
    requires AllPackable(slice) && e in Mapped(slice, ByWord)
    ensures Unpack(Rank(e.score)) == e.id
  {
    var ranked := Mapped(slice, ByWord);
    var j :| 0 <= j < |ranked| && ranked[j] == e;
    assert slice[j] in slice;
    UnpackRecoversID(slice[j]);
  }

  lemma RanksUnpack(slice: seq<ScoreEntry>, first: seq<ScoreEntry>)
    requires AllPackable(slice) && multiset(first) <= multiset(Mapped(slice, ByWord))
    ensures UnpackedRanks(Scores(first)) == Ids(first)
  {
    forall i | 0 <= i < |first| ensures Unpack(Rank(first[i].score)) == first[i].id {
      assert first[i] in multiset(first);
      RankUnpacks(slice, first[i]);
    }
  }

  /** The first words of a slice belong to its first entries in word order. */
  lemma FirstWordsInOrder(slice: seq<ScoreEntry>)
    requires AllPackable(slice)
    ensures FirstWords(Words(slice)) == Ids(FirstInOrder(Mapped(slice, ByWord)))
    ensures TopEntries(FirstInOrder(Mapped(slice, ByWord)), Mapped(slice, ByWord), TOP_K)
  {
    var ranked := Mapped(slice, ByWord);
    var first := FirstInOrder(ranked);
    FirstInOrderIsTop(ranked);
    RanksUnpack(slice, first);
    TopScores(first, ranked, TOP_K);
    assert Scores(ranked) == Negated(Words(slice));
  }

  lemma BestByWord(slice: seq<ScoreEntry>, f: int -> int)
    requires AllPackable(slice) && forall e :: e in slice ==> f(e.id) == Rank(Pack(e))
    ensures BestByKey(FirstWords(Words(slice)), multiset(Ids(slice)), f)
  {
    var ranked := Mapped(slice, ByWord);
    FirstWordsInOrder(slice);
    forall e | e in ranked ensures e.score == f(e.id) {
      var j :| 0 <= j < |ranked| && ranked[j] == e;
      assert slice[j] in slice;
    }
    assert Ids(ranked) == Ids(slice);
    TopIsBestByKey(FirstInOrder(ranked), ranked, f);
  }

  lemma TopIsBestByKey(top: seq<ScoreEntry>, all: seq<ScoreEntry>, f: int -> int)
    requires TopByKey(top, all, f, TOP_K)
    ensures BestByKey(Ids(top), multiset(Ids(all)), f)
  {
    TopIdsIncluded(top, all, f, TOP_K);
    forall i, j | 0 <= i < j < |top| ensures f(Ids(top)[i]) >= f(Ids(top)[j]) {
      TopIdsSorted(top, all, f, TOP_K, i, j);
    }
    forall i, y | 0 <= i < |top| && y in multiset(Ids(all)) - multiset(Ids(top)) ensures f(Ids(top)[i]) >= f(y) {
      TopIdsBest(top, all, f, TOP_K, i, y);
    }
    assert |multiset(Ids(all))| == |all|;
  }

  // ---- The book's slice ----

  lemma SliceKeys(b: Book, tag: nat, table: nat, now: int, e: ScoreEntry)
    requires e in BookSlice(b, tag, table, now, NUM_ORDERS)
    ensures 0 <= e.id < NUM_ORDERS && e.id in b && e.score == BookKey(b, table, now, e.id)
  {
    BookSliceCount(b, tag, table, now, NUM_ORDERS, e);
    assert Count(BookSlice(b, tag, table, now, NUM_ORDERS), e) > 0;
  }

  lemma SliceIds(b: Book, tag: nat, table: nat, now: int)
    ensures multiset(Ids(BookSlice(b, tag, table, now, NUM_ORDERS))) == Candidates(b, tag, table, now, NUM_ORDERS)
  {
    var slice, key := BookSlice(b, tag, table, now, NUM_ORDERS), x => BookKey(b, table, now, x);
    forall e | e in slice ensures e.score == key(e.id) {
      SliceKeys(b, tag, table, now, e);
    }
    forall x: int ensures multiset(Ids(slice))[x] == Candidates(b, tag, table, now, NUM_ORDERS)[x] {
      IdCount(slice, key, x);
      BookSliceCount(b, tag, table, now, NUM_ORDERS, ScoreEntry(key(x), x));
      CandidateWeight(b, tag, table, now, NUM_ORDERS, x);
      assert multiset(Ids(slice))[x] == Count(Ids(slice), x);
    }
  }

  lemma SlicePackable(b: Book, tag: nat, table: nat, now: int)
    requires ScoresWithin(b, -32768, 32767)
    ensures AllPackable(BookSlice(b, tag, table, now, NUM_ORDERS))
  {
    forall e | e in BookSlice(b, tag, table, now, NUM_ORDERS) ensures Packable(e) {
      SliceKeys(b, tag, table, now, e);
    }
  }

  /** f ranks the orders of the book by their words. */
  ghost predicate RanksByWord(f: int -> int, b: Book, table: nat, now: int)
  {
    forall id :: f(id) == BookWord(b, table, now, id)
  }

  lemma BookListBest(list: seq<int>, b: Book, tag: nat, table: nat, now: int, f: int -> int,
                     admits: NaiveOrder -> bool, before: (NaiveOrder, int, NaiveOrder, int) -> bool)
    requires ListOfBook(list, b, tag, table, now) && ScoresWithin(b, -32768, 32767)
    requires RanksByWord(f, b, table, now) && KeysFollow(b, table, now, f, admits, before)
    ensures BestOf(list, b, tag, admits, before)
  {
    var slice := BookSlice(b, tag, table, now, NUM_ORDERS);
    SlicePackable(b, tag, table, now);
    forall e | e in slice ensures f(e.id) == Rank(Pack(e)) {
      SliceKeys(b, tag, table, now, e);
    }
    BestByWord(slice, f);
    SliceIds(b, tag, table, now);
    BestByKeyIsBest(list, b, tag, table, now, f, admits, before);
  }

  // ---- The four lists ----

  /** A run that ends in a cycle and reads the live maps, or frozen copies made after the last ingest. */
  ghost predicate KPublishes(numPPS: nat, pairs: seq<PairInfo>, acts: seq<KAction>, live: bool)
  {
    && PairsInside(Init(numPPS, pairs)) && HaveRows(acts, numPPS) && (live || Disciplined(acts))
    && acts != [] && acts[|acts| - 1].KCycled?
  }

  /** The larger score first, and the smaller id among equal scores. */
  predicate ScoreThenID(x: NaiveOrder, xID: int, y: NaiveOrder, yID: int)
  {
    x.score > y.score || (x.score == y.score && xID < yID)
  }

  /** The earlier deadline first, and the smaller id among equal ones, both within 2^31 seconds of now. */
  function DueThenID(now: int): (NaiveOrder, int, NaiveOrder, int) -> bool
  {
    (x: NaiveOrder, xID: int, y: NaiveOrder, yID: int) =>
      && -0x8000_0000 < now - x.deadline < 0x8000_0000 && -0x8000_0000 < now - y.deadline < 0x8000_0000
      && (x.deadline < y.deadline || (x.deadline == y.deadline && xID < yID))
  }

  lemma BookInRange(numPPS: nat, pairs: seq<PairInfo>, acts: seq<KAction>)
    requires PairsInside(Init(numPPS, pairs)) && HaveRows(acts, numPPS)
    ensures ScoresWithin(KBook(acts), -32768, 32767) && forall o :: o in KBook(acts) ==> o < NUM_ORDERS
  {
    LiveRunCoupled(numPPS, pairs, acts);
  }

  lemma TableList(numPPS: nat, pairs: seq<PairInfo>, acts: seq<KAction>, live: bool, p: nat, table: nat,
                  f: int -> int, admits: NaiveOrder -> bool, before: (NaiveOrder, int, NaiveOrder, int) -> bool)
    requires KPublishes(numPPS, pairs, acts, live)
    requires p < |KRun(KInit(numPPS, pairs), acts, live).core.pairs| && table < NUM_TABLES
    requires RanksByWord(f, KBook(acts), table, acts[|acts| - 1].now)
    requires KeysFollow(KBook(acts), table, acts[|acts| - 1].now, f, admits, before)
    ensures BestOf(LastLists(KInit(numPPS, pairs), acts, live)[p][table], KBook(acts),
                   KRun(KInit(numPPS, pairs), acts, live).core.pairs[p].binTagID, admits, before)
  {
    var list := LastLists(KInit(numPPS, pairs), acts, live)[p][table];
    var tag := KRun(KInit(numPPS, pairs), acts, live).core.pairs[p].binTagID;
    BookInRange(numPPS, pairs, acts);
    PublishedListsOfBook(numPPS, pairs, acts, live, p, table);
    BookListBest(list, KBook(acts), tag, table, acts[|acts| - 1].now, f, admits, before);
  }

  /** On scores, words follow score then id. */
  lemma ScoreWords(b: Book, table: nat, now: int, f: int -> int, admits: NaiveOrder -> bool)
    requires table == HEURISTIC || table == LARGE
    requires ScoresWithin(b, -32768, 32767) && RanksByWord(f, b, table, now)
    requires forall o :: o in b ==> o < NUM_ORDERS && (admits(b[o]) <==> Passes(b[o].qty, b[o].deadline, table, now))
    ensures KeysFollow(b, table, now, f, admits, ScoreThenID)
  {
    forall x: nat, y: nat | x in b && y in b && ScoreThenID(b[x], x, b[y], y) ensures f(x) > f(y) {
      PackedOrder(ScoreEntry(b[x].score, x), ScoreEntry(b[y].score, y));
    }
  }

  /** On deadlines, words follow deadline then id. */
  lemma DeadlineWords(b: Book, table: nat, now: int, f: int -> int, admits: NaiveOrder -> bool)
    requires (table == PBT || table == CRITICAL) && RanksByWord(f, b, table, now)
    requires forall o :: o in b ==> o < NUM_ORDERS && (admits(b[o]) <==> Passes(b[o].qty, b[o].deadline, table, now))
    ensures KeysFollow(b, table, now, f, admits, DueThenID(now))
  {
    forall x: nat, y: nat | x in b && y in b && DueThenID(now)(b[x], x, b[y], y) ensures f(x) > f(y) {
      PackedOrder(ScoreEntry(now - b[x].deadline, x), ScoreEntry(now - b[y].deadline, y));
    }
  }

  /** The heuristic list: every order with the tag, by score descending, then id ascending. */
  lemma HeuristicList(numPPS: nat, pairs: seq<PairInfo>, acts: seq<KAction>, live: bool, p: nat)
    requires KPublishes(numPPS, pairs, acts, live)
    requires p < |KRun(KInit(numPPS, pairs), acts, live).core.pairs|
    ensures var now := acts[|acts| - 1].now;
            BestOf(LastLists(KInit(numPPS, pairs), acts, live)[p][HEURISTIC], KBook(acts),
                   KRun(KInit(numPPS, pairs), acts, live).core.pairs[p].binTagID,
                   (n: NaiveOrder) => true, ScoreThenID)
  {
    var b, now := KBook(acts), acts[|acts| - 1].now;
    var f := id => BookWord(b, HEURISTIC, now, id);
    BookInRange(numPPS, pairs, acts);
    ScoreWords(b, HEURISTIC, now, f, (n: NaiveOrder) => true);
    TableList(numPPS, pairs, acts, live, p, HEURISTIC, f, (n: NaiveOrder) => true, ScoreThenID);
  }

  /** The large list: only orders of at least 10 units, in the same order. */
  lemma LargeList(numPPS: nat, pairs: seq<PairInfo>, acts: seq<KAction>, live: bool, p: nat)
    requires KPublishes(numPPS, pairs, acts, live)
    requires p < |KRun(KInit(numPPS, pairs), acts, live).core.pairs|
    ensures var now := acts[|acts| - 1].now;
            BestOf(LastLists(KInit(numPPS, pairs), acts, live)[p][LARGE], KBook(acts),
                   KRun(KInit(numPPS, pairs), acts, live).core.pairs[p].binTagID,
                   (n: NaiveOrder) => n.qty >= 10.0, ScoreThenID)
  {
    var b, now := KBook(acts), acts[|acts| - 1].now;
    var f := id => BookWord(b, LARGE, now, id);
    BookInRange(numPPS, pairs, acts);
    ScoreWords(b, LARGE, now, f, (n: NaiveOrder) => n.qty >= 10.0);
    TableList(numPPS, pairs, acts, live, p, LARGE, f, (n: NaiveOrder) => n.qty >= 10.0, ScoreThenID);
  }

  /** The deadline list: only orders with a deadline, earlier ones first, then by id. */
  lemma DeadlineList(numPPS: nat, pairs: seq<PairInfo>, acts: seq<KAction>, live: bool, p: nat)
    requires KPublishes(numPPS, pairs, acts, live)
    requires p < |KRun(KInit(numPPS, pairs), acts, live).core.pairs|
    ensures var now := acts[|acts| - 1].now;
            BestOf(LastLists(KInit(numPPS, pairs), acts, live)[p][PBT], KBook(acts),
                   KRun(KInit(numPPS, pairs), acts, live).core.pairs[p].binTagID,
                   (n: NaiveOrder) => n.deadline > 0, DueThenID(now))
  {
    var b, now := KBook(acts), acts[|acts| - 1].now;
    var f := id => BookWord(b, PBT, now, id);
    BookInRange(numPPS, pairs, acts);
    DeadlineWords(b, PBT, now, f, (n: NaiveOrder) => n.deadline > 0);
    TableList(numPPS, pairs, acts, live, p, PBT, f, (n: NaiveOrder) => n.deadline > 0, DueThenID(now));
  }

  /** The critical list: only orders due within 1800 seconds, in the same order. */
  lemma CriticalList(numPPS: nat, pairs: seq<PairInfo>, acts: seq<KAction>, live: bool, p: nat)
    requires KPublishes(numPPS, pairs, acts, live)
    requires p < |KRun(KInit(numPPS, pairs), acts, live).core.pairs|
    ensures var now := acts[|acts| - 1].now;
            BestOf(LastLists(KInit(numPPS, pairs), acts, live)[p][CRITICAL], KBook(acts),
                   KRun(KInit(numPPS, pairs), acts, live).core.pairs[p].binTagID,
                   (n: NaiveOrder) => n.deadline > 0 && n.deadline <= now + 1800, DueThenID(now))
  {
    var b, now := KBook(acts), acts[|acts| - 1].now;
    var f := id => BookWord(b, CRITICAL, now, id);
    BookInRange(numPPS, pairs, acts);
    DeadlineWords(b, CRITICAL, now, f, (n: NaiveOrder) => n.deadline > 0 && n.deadline <= now + 1800);
    TableList(numPPS, pairs, acts, live, p, CRITICAL, f,
              (n: NaiveOrder) => n.deadline > 0 && n.deadline <= now + 1800, DueThenID(now));
  }
}
