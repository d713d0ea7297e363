/** What a published list says, in terms of the fields of the orders themselves. */
module RankedLists {
  import opened Common
  import opened SeqFacts
  import opened GoState
  import opened Naive
  import opened Headline
  import opened PublishedLaws

  /** The order an id stands for, blank when the book has none. */
  function OrderOf(b: Book, x: int): NaiveOrder
  {
    if x >= 0 && x in b then b[x] else NaiveOrder(0.0, 0, [], [], 0, 0)
  }

  /** Every id listed is an order of the book that names the tag and is admitted. */
  ghost predicate OnlyAdmitted(ids: seq<int>, b: Book, tag: nat, admits: NaiveOrder -> bool)
  {
    forall x :: x in ids ==> x >= 0 && x in b && tag in b[x].binTags && admits(b[x])
  }

  /** No id listed comes before one listed ahead of it. */
  ghost predicate InOrderOf(ids: seq<int>, b: Book, before: (NaiveOrder, int, NaiveOrder, int) -> bool)
  {
    forall i, j :: 0 <= i < j < |ids| ==> !before(OrderOf(b, ids[j]), ids[j], OrderOf(b, ids[i]), ids[i])
  }

  /** An admitted order is listed as often as it names the tag, or the list is full of ids it is not before. */
  ghost predicate Represented(ids: seq<int>, b: Book, tag: nat, before: (NaiveOrder, int, NaiveOrder, int) -> bool,
                              o: nat)
    requires o in b
  {
    || Count<int>(ids, o) == Count(b[o].binTags, tag)
    || (Count<int>(ids, o) < Count(b[o].binTags, tag) && |ids| == 1000
        && forall x :: x in ids ==> !before(b[o], o, OrderOf(b, x), x))
  }

  /** A list of at most 1000 ids: the best of the admitted orders with the tag, best first. */
  ghost predicate BestOf(ids: seq<int>, b: Book, tag: nat, admits: NaiveOrder -> bool,
                         before: (NaiveOrder, int, NaiveOrder, int) -> bool)
  {
    && |ids| <= 1000 && OnlyAdmitted(ids, b, tag, admits) && InOrderOf(ids, b, before)
    && forall o :: o in b && admits(b[o]) ==> Represented(ids, b, tag, before, o)
  }

  predicate HigherScore(x: NaiveOrder, xID: int, y: NaiveOrder, yID: int) { x.score > y.score }

  /** x is due before y, both within 2^31 seconds of now. */
  function DueFirst(now: int): (NaiveOrder, int, NaiveOrder, int) -> bool
  {
    (x: NaiveOrder, xID: int, y: NaiveOrder, yID: int) =>
      && -0x8000_0000 <= now - x.deadline < 0x8000_0000 && -0x8000_0000 <= now - y.deadline < 0x8000_0000
      && x.deadline < y.deadline
  }

  // ---- From keys to fields ----

  /** The first TOP_K of the candidates by a key, best first. */
  ghost predicate BestByKey(ids: seq<int>, cand: multiset<int>, f: int -> int)
  {
    && |ids| == Min(|cand|, TOP_K) && multiset(ids) <= cand
    && (forall i, j :: 0 <= i < j < |ids| ==> f(ids[i]) >= f(ids[j]))
    && forall i, y :: 0 <= i < |ids| && y in cand - multiset(ids) ==> f(ids[i]) >= f(y)
  }

  /** The table's filter is the admission, and the order of the fields never contradicts that of the keys. */
  ghost predicate KeysFollow(b: Book, table: nat, now: int, f: int -> int, admits: NaiveOrder -> bool,
                             before: (NaiveOrder, int, NaiveOrder, int) -> bool)
  {
    && (forall o :: o in b ==> o < NUM_ORDERS && (admits(b[o]) <==> Passes(b[o].qty, b[o].deadline, table, now)))
    && forall x: nat, y: nat :: x in b && y in b && before(b[x], x, b[y], y) ==> f(x) > f(y)
  }

  lemma ListedIsAdmitted(ids: seq<int>, b: Book, tag: nat, table: nat, now: int, f: int -> int,
                         admits: NaiveOrder -> bool, before: (NaiveOrder, int, NaiveOrder, int) -> bool)
    requires multiset(ids) <= Candidates(b, tag, table, now, NUM_ORDERS) && KeysFollow(b, table, now, f, admits, before)
    ensures OnlyAdmitted(ids, b, tag, admits)
  {
    forall x | x in ids ensures x >= 0 && x in b && tag in b[x].binTags && admits(b[x]) {
      CandidateWeight(b, tag, table, now, NUM_ORDERS, x);
      assert x in multiset(ids);
    }
  }

  lemma AdmittedIsRepresented(ids: seq<int>, b: Book, tag: nat, table: nat, now: int, f: int -> int,
                              admits: NaiveOrder -> bool, before: (NaiveOrder, int, NaiveOrder, int) -> bool, o: nat)
    requires BestByKey(ids, Candidates(b, tag, table, now, NUM_ORDERS), f)
    requires KeysFollow(b, table, now, f, admits, before) && OnlyAdmitted(ids, b, tag, admits)
    requires o in b && admits(b[o])
    ensures Represented(ids, b, tag, before, o)
  {
    var cand := Candidates(b, tag, table, now, NUM_ORDERS);
    CandidateWeight(b, tag, table, now, NUM_ORDERS, o);
    assert cand[o] == Count(b[o].binTags, tag) && Count<int>(ids, o) <= cand[o];
    if Count<int>(ids, o) < cand[o] {
      assert (o as int) in cand - multiset(ids);
      assert |ids| == TOP_K by {
        assert |cand - multiset(ids)| == |cand| - |multiset(ids)|;
      }
      forall x | x in ids ensures !before(b[o], o, OrderOf(b, x), x) {
        var i :| 0 <= i < |ids| && ids[i] == x;
        assert f(ids[i]) >= f(o);
      }
    }
  }

  lemma BestByKeyIsBest(ids: seq<int>, b: Book, tag: nat, table: nat, now: int, f: int -> int,
                        admits: NaiveOrder -> bool, before: (NaiveOrder, int, NaiveOrder, int) -> bool)
    requires BestByKey(ids, Candidates(b, tag, table, now, NUM_ORDERS), f)
    requires KeysFollow(b, table, now, f, admits, before)
    ensures BestOf(ids, b, tag, admits, before)
  {
    ListedIsAdmitted(ids, b, tag, table, now, f, admits, before);
    forall o | o in b && admits(b[o]) ensures Represented(ids, b, tag, before, o) {
      AdmittedIsRepresented(ids, b, tag, table, now, f, admits, before, o);
    }
    forall i, j | 0 <= i < j < |ids| ensures !before(OrderOf(b, ids[j]), ids[j], OrderOf(b, ids[i]), ids[i]) {
      assert ids[i] in ids && ids[j] in ids;
      assert f(ids[i]) >= f(ids[j]);
    }
  }

  // ---- The four lists of the go-cgo engine ----

  /** The buffer has 1000 slots for each of four tables of each pair; this pair's and table's hold the ids, then -1. */
  ghost predicate Holds(buf: seq<int>, pairs: nat, p: nat, table: nat, ids: seq<int>)
  {
    && |buf| == 4000 * pairs && p < pairs && table < 4 && |ids| <= 1000
    && buf[4000 * p + 1000 * table..4000 * p + 1000 * (table + 1)] == ids + seq(1000 - |ids|, _ => -1)
  }

  /** The ids of a pair's list in the buffer of the last cycle, judged by the orders' fields. */
  lemma TableList(numPPS: nat, pairs: seq<PairInfo>, acts: seq<Action>, s: State, p: nat, table: nat,
                  admits: NaiveOrder -> bool, before: (NaiveOrder, int, NaiveOrder, int) -> bool)
    returns (ids: seq<int>)
    requires Publishes(numPPS, pairs, acts, s) && p < |s.pairs| && table < NUM_TABLES
    requires var b, now := NaiveRun(acts), acts[|acts| - 1].now;
             KeysFollow(b, table, now, x => BookKey(b, table, now, x), admits, before)
    ensures Holds(acts[|acts| - 1].buf, |s.pairs|, p, table, ids)
    ensures BestOf(ids, NaiveRun(acts), s.pairs[p].binTagID, admits, before)
  {
    var b, now, tag := NaiveRun(acts), acts[|acts| - 1].now, s.pairs[p].binTagID;
    var f := x => BookKey(b, table, now, x);
    PublishedListsAreTopK(numPPS, pairs, acts, s, p, table);
    var list, cand := LastList(acts, p, table), Candidates(b, tag, table, now, NUM_ORDERS);
    ids := list[..Min(|cand|, TOP_K)];
    BookListByKey(list, ids, b, tag, table, now, f);
    SlotsOf(acts[|acts| - 1].buf, |s.pairs|, p, table, ids);
    BestByKeyIsBest(ids, b, tag, table, now, f, admits, before);
  }

  lemma SlotsOf(buf: seq<int>, pairs: nat, p: nat, table: nat, ids: seq<int>)
    requires p < pairs && table < NUM_TABLES && |buf| == ListOffset(pairs, 0) && |ids| <= 1000
    requires ListOffset(p, table) + TOP_K <= |buf| && ListAt(buf, p, table) == ids + seq(1000 - |ids|, _ => -1)
    ensures Holds(buf, pairs, p, table, ids)
  {
    assert ListOffset(p, table) == 4000 * p + 1000 * table;
  }

  lemma BookListByKey(list: seq<int>, ids: seq<int>, b: Book, tag: nat, table: nat, now: int, f: int -> int)
    requires BookList(list, b, tag, table, now) && forall x :: f(x) == BookKey(b, table, now, x)
    requires ids == list[..Min(|Candidates(b, tag, table, now, NUM_ORDERS)|, TOP_K)]
    ensures BestByKey(ids, Candidates(b, tag, table, now, NUM_ORDERS), f)
    ensures list == ids + seq(1000 - |ids|, _ => -1)
  {
    assert list == ids + list[|ids|..];
    assert list[|ids|..] == seq(1000 - |ids|, _ => -1);
  }

  /** What TableList asks of the book of a run: the admission is the table's filter. */
  ghost predicate AdmitsTable(b: Book, table: nat, now: int, admits: NaiveOrder -> bool)
  {
    forall o :: o in b ==> o < NUM_ORDERS && (admits(b[o]) <==> Passes(b[o].qty, b[o].deadline, table, now))
  }

  lemma BookInRange(numPPS: nat, pairs: seq<PairInfo>, acts: seq<Action>, s: State)
    requires Publishes(numPPS, pairs, acts, s)
    ensures forall o :: o in NaiveRun(acts) ==> o < NUM_ORDERS
  {
    RunCoupled(numPPS, pairs, acts, s);
  }

  lemma ScoreKeys(b: Book, table: nat, now: int, admits: NaiveOrder -> bool)
    requires (table == HEURISTIC || table == LARGE) && AdmitsTable(b, table, now, admits)
    ensures KeysFollow(b, table, now, x => BookKey(b, table, now, x), admits, HigherScore)
  {
  }

  lemma DeadlineKeys(b: Book, table: nat, now: int, admits: NaiveOrder -> bool)
    requires (table == PBT || table == CRITICAL) && AdmitsTable(b, table, now, admits)
    ensures KeysFollow(b, table, now, x => BookKey(b, table, now, x), admits, DueFirst(now))
  {
  }

  /** The heuristic list: every order with the tag, larger scores first. */
  lemma HeuristicList(numPPS: nat, pairs: seq<PairInfo>, acts: seq<Action>, s: State, p: nat) returns (ids: seq<int>)
    requires Publishes(numPPS, pairs, acts, s) && p < |s.pairs|
    ensures Holds(acts[|acts| - 1].buf, |s.pairs|, p, 0, ids)
    ensures BestOf(ids, NaiveRun(acts), s.pairs[p].binTagID, (n: NaiveOrder) => true, HigherScore)
  {
    BookInRange(numPPS, pairs, acts, s);
    ScoreKeys(NaiveRun(acts), HEURISTIC, acts[|acts| - 1].now, (n: NaiveOrder) => true);
    ids := TableList(numPPS, pairs, acts, s, p, HEURISTIC, (n: NaiveOrder) => true, HigherScore);
  }

  /** The large list: only orders of at least 10 units, larger scores first. */
  lemma LargeList(numPPS: nat, pairs: seq<PairInfo>, acts: seq<Action>, s: State, p: nat) returns (ids: seq<int>)
    requires Publishes(numPPS, pairs, acts, s) && p < |s.pairs|
    ensures Holds(acts[|acts| - 1].buf, |s.pairs|, p, 1, ids)
    ensures BestOf(ids, NaiveRun(acts), s.pairs[p].binTagID, (n: NaiveOrder) => n.qty >= 10.0, HigherScore)
  {
    BookInRange(numPPS, pairs, acts, s);
    ScoreKeys(NaiveRun(acts), LARGE, acts[|acts| - 1].now, (n: NaiveOrder) => n.qty >= 10.0);
    ids := TableList(numPPS, pairs, acts, s, p, LARGE, (n: NaiveOrder) => n.qty >= 10.0, HigherScore);
  }

  /** The deadline list: only orders with a deadline, earlier ones first while they are within 32 bits of now. */
  lemma DeadlineList(numPPS: nat, pairs: seq<PairInfo>, acts: seq<Action>, s: State, p: nat) returns (ids: seq<int>)
    requires Publishes(numPPS, pairs, acts, s) && p < |s.pairs|
    ensures Holds(acts[|acts| - 1].buf, |s.pairs|, p, 2, ids)
    ensures var now := acts[|acts| - 1].now;
            BestOf(ids, NaiveRun(acts), s.pairs[p].binTagID, (n: NaiveOrder) => n.deadline > 0, DueFirst(now))
  {
    var now := acts[|acts| - 1].now;
    BookInRange(numPPS, pairs, acts, s);
    DeadlineKeys(NaiveRun(acts), PBT, now, (n: NaiveOrder) => n.deadline > 0);
    ids := TableList(numPPS, pairs, acts, s, p, PBT, (n: NaiveOrder) => n.deadline > 0, DueFirst(now));
  }

  /** The critical list: only orders due within 1800 seconds, earlier ones first likewise. */
  lemma CriticalList(numPPS: nat, pairs: seq<PairInfo>, acts: seq<Action>, s: State, p: nat) returns (ids: seq<int>)
    requires Publishes(numPPS, pairs, acts, s) && p < |s.pairs|
    ensures Holds(acts[|acts| - 1].buf, |s.pairs|, p, 3, ids)
    ensures var now := acts[|acts| - 1].now;
            BestOf(ids, NaiveRun(acts), s.pairs[p].binTagID,
                   (n: NaiveOrder) => n.deadline > 0 && n.deadline <= now + 1800, DueFirst(now))
  {
    var now := acts[|acts| - 1].now;
    BookInRange(numPPS, pairs, acts, s);
    DeadlineKeys(NaiveRun(acts), CRITICAL, now, (n: NaiveOrder) => n.deadline > 0 && n.deadline <= now + 1800);
    ids := TableList(numPPS, pairs, acts, s, p, CRITICAL, (n: NaiveOrder) => n.deadline > 0 && n.deadline <= now + 1800,
                     DueFirst(now));
  }
}
