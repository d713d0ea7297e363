/** Every published list is a top-k of the naive book. */
module Headline {
  import opened Common
  import opened SeqFacts
  import opened Ranking
  import opened Index
  import opened GoState
  import opened Naive

  /** How often order o is a candidate: once for each time it lists the tag, if it passes the table's filter. */
  ghost function Weight(b: Book, tag: nat, table: nat, now: int, o: nat): nat
  {
    if o in b && Passes(b[o].qty, b[o].deadline, table, now) then Count(b[o].binTags, tag) else 0
  }

  /** The candidates among the orders below hi. */
  ghost function Candidates(b: Book, tag: nat, table: nat, now: int, hi: nat): multiset<int>
  {
    if hi == 0 then multiset{}
    else Candidates(b, tag, table, now, hi - 1)[(hi - 1) as int := Weight(b, tag, table, now, hi - 1)]
  }

  lemma {:induction false} CandidateWeight(b: Book, tag: nat, table: nat, now: int, hi: nat, x: int)
    ensures Candidates(b, tag, table, now, hi)[x] == if 0 <= x < hi then Weight(b, tag, table, now, x) else 0
  {
    if hi == 0 {
    } else {
      CandidateWeight(b, tag, table, now, hi - 1, x);
    }
  }

  ghost function BookKey(b: Book, table: nat, now: int, x: int): int
  {
    if x >= 0 && x in b then RankKey(b[x].score, b[x].deadline, table, now) else 0
  }

  ghost predicate BestFirst(ids: seq<int>, b: Book, table: nat, now: int)
  {
    forall i, j :: 0 <= i < j < |ids| ==> BookKey(b, table, now, ids[i]) >= BookKey(b, table, now, ids[j])
  }

  /** No candidate left out has a larger key than one listed. */
  ghost predicate NothingBetter(ids: seq<int>, cand: multiset<int>, b: Book, table: nat, now: int)
  {
    forall i, y :: 0 <= i < |ids| && y in cand - multiset(ids) ==>
      BookKey(b, table, now, ids[i]) >= BookKey(b, table, now, y)
  }

  /**
   * A published list as the book prescribes it: min(n, TOP_K) ids drawn from the n candidates in
   * non-increasing key order, no candidate left out with a larger key, then -1 padding.
   */
  ghost predicate BookList(list: seq<int>, b: Book, tag: nat, table: nat, now: int)
  {
    var cand := Candidates(b, tag, table, now, NUM_ORDERS);
    var m := Min(|cand|, TOP_K);
    && |list| == TOP_K
    && (forall i :: m <= i < TOP_K ==> list[i] == -1)
    && multiset(list[..m]) <= cand
    && BestFirst(list[..m], b, table, now)
    && NothingBetter(list[..m], cand, b, table, now)
  }

  /** The scratch entries, by id, are the eligible occurrences in the list. */
  lemma {:induction false} EntryCounts(meta: seq<OrderMeta>, row: seq<int>, eligible: seq<nat>, table: nat, now: int,
                                       x: nat)
    requires |meta| == |row| == NUM_ORDERS
    ensures Count(Ids(Entries(meta, row, eligible, table, now)), x) ==
            if Eligible(meta, x, table, now) then Count(eligible, x) else 0
  {
    if eligible == [] {
    } else {
      var front := eligible[..|eligible| - 1];
      SnocSplit(eligible);
      EntryCounts(meta, row, front, table, now, x);
      var e, e' := Entries(meta, row, front, table, now), Entries(meta, row, eligible, table, now);
      if e' != e {
        SnocSplit(Ids(e'));
        assert Ids(e')[..|e'| - 1] == Ids(e);
      }
    }
  }

  lemma {:induction false} EntryShape(meta: seq<OrderMeta>, row: seq<int>, eligible: seq<nat>, table: nat, now: int)
    requires |meta| == |row| == NUM_ORDERS
    ensures forall e :: e in Entries(meta, row, eligible, table, now) ==>
              && 0 <= e.id && Eligible(meta, e.id, table, now) && e.id in eligible
              && e.score == RankKey(row[e.id], meta[e.id].pbtDeadline, table, now)
  {
    if eligible == [] {
    } else {
      EntryShape(meta, row, eligible[..|eligible| - 1], table, now);
    }
  }

  /** The entries the engine ranks for a pair are the book's candidates with the book's keys. */
  lemma EntriesAreCandidates(s: State, b: Book, pair: PairInfo, table: nat, now: int)
    requires Linked(s, b) && pair.ppsID < |s.rows|
    ensures multiset(Ids(PairEntries(s, pair, table, now))) == Candidates(b, pair.binTagID, table, now, NUM_ORDERS)
    ensures forall e :: e in PairEntries(s, pair, table, now) ==> e.score == BookKey(b, table, now, e.id)
  {
    var eligible := At(s.binTags.fwd, pair.binTagID);
    var entries := PairEntries(s, pair, table, now);
    EntryShape(s.meta, s.rows[pair.ppsID], eligible, table, now);
    var got, want := multiset(Ids(entries)), Candidates(b, pair.binTagID, table, now, NUM_ORDERS);
    forall x: int ensures got[x] == want[x] {
      CandidateWeight(b, pair.binTagID, table, now, NUM_ORDERS, x);
      if 0 <= x {
        EntryCounts(s.meta, s.rows[pair.ppsID], eligible, table, now, x);
        assert Count(eligible, x) == Count(At(s.binTags.rev, x), pair.binTagID);
        assert x < NUM_ORDERS ==> OrderLinked(s, b, x);
      } else {
        assert x !in Ids(entries);
      }
    }
    forall e | e in entries ensures e.score == BookKey(b, table, now, e.id) {
      assert OrderLinked(s, b, e.id);
    }
  }

  // ---- The candidates as entries ----

  /** Each id below hi with its key, as often as its weight. */
  ghost function Weighed(key: int -> int, weight: nat -> nat, hi: nat): seq<ScoreEntry>
  {
    if hi == 0 then [] else Weighed(key, weight, hi - 1) + Repeat(ScoreEntry(key(hi - 1), hi - 1), weight(hi - 1))
  }

  /** How often an entry is among them. */
  function Occurrences(key: int -> int, weight: nat -> nat, hi: nat, e: ScoreEntry): nat
  {
    if 0 <= e.id < hi && e.score == key(e.id) then weight(e.id) else 0
  }

  lemma OccurrencesNext(key: int -> int, weight: nat -> nat, hi: nat, e: ScoreEntry)
    requires hi > 0
    ensures Occurrences(key, weight, hi, e) ==
            Occurrences(key, weight, hi - 1, e) + if e == ScoreEntry(key(hi - 1), hi - 1) then weight(hi - 1) else 0
  {
  }

  lemma WeighedNext(key: int -> int, weight: nat -> nat, hi: nat, e: ScoreEntry)
    requires hi > 0
    ensures Count(Weighed(key, weight, hi), e) ==
            Count(Weighed(key, weight, hi - 1), e) + if e == ScoreEntry(key(hi - 1), hi - 1) then weight(hi - 1) else 0
  {
    var last := ScoreEntry(key(hi - 1), hi - 1);
    RepeatCount(last, weight(hi - 1), e);
    CountConcat(Weighed(key, weight, hi - 1), Repeat(last, weight(hi - 1)), e);
  }

  lemma {:induction false} WeighedCount(key: int -> int, weight: nat -> nat, hi: nat, e: ScoreEntry)
    ensures Count(Weighed(key, weight, hi), e) == Occurrences(key, weight, hi, e)
  {
    if hi == 0 {
    } else {
      WeighedNext(key, weight, hi, e);
      WeighedCount(key, weight, hi - 1, e);
      OccurrencesNext(key, weight, hi, e);
    }
  }

  /** The candidates below hi with the book's keys, order by order, each as often as it lists the tag. */
  ghost function BookSlice(b: Book, tag: nat, table: nat, now: int, hi: nat): seq<ScoreEntry>
  {
    Weighed(x => BookKey(b, table, now, x), o => Weight(b, tag, table, now, o), hi)
  }

  lemma BookSliceCount(b: Book, tag: nat, table: nat, now: int, hi: nat, e: ScoreEntry)
    ensures Count(BookSlice(b, tag, table, now, hi), e) ==
            if 0 <= e.id < hi && e.score == BookKey(b, table, now, e.id) then Weight(b, tag, table, now, e.id) else 0
  {
    WeighedCount(x => BookKey(b, table, now, x), o => Weight(b, tag, table, now, o), hi, e);
  }

  /** What the engine ranks for a pair is the book's slice, up to the order of the entries. */
  lemma EntriesAreBookSlice(s: State, b: Book, pair: PairInfo, table: nat, now: int)
    requires Linked(s, b) && pair.ppsID < |s.rows|
    ensures multiset(PairEntries(s, pair, table, now)) == multiset(BookSlice(b, pair.binTagID, table, now, NUM_ORDERS))
  {
    var entries, slice := PairEntries(s, pair, table, now), BookSlice(b, pair.binTagID, table, now, NUM_ORDERS);
    var f := x => BookKey(b, table, now, x);
    EntriesAreCandidates(s, b, pair, table, now);
    forall e: ScoreEntry ensures multiset(entries)[e] == multiset(slice)[e] {
      BookSliceCount(b, pair.binTagID, table, now, NUM_ORDERS, e);
      if e.score == f(e.id) {
        IdCount(entries, f, e.id);
        CandidateWeight(b, pair.binTagID, table, now, NUM_ORDERS, e.id);
        assert Count(Ids(entries), e.id) == multiset(Ids(entries))[e.id];
      } else {
        assert e !in entries;
      }
    }
  }

  // ---- The published list ----

  lemma TopIsBest(top: seq<ScoreEntry>, entries: seq<ScoreEntry>, b: Book, table: nat, now: int)
    requires TopEntries(top, entries, TOP_K)
    requires forall e :: e in entries ==> e.score == BookKey(b, table, now, e.id)
    ensures multiset(Ids(top)) <= multiset(Ids(entries))
    ensures BestFirst(Ids(top), b, table, now)
    ensures NothingBetter(Ids(top), multiset(Ids(entries)), b, table, now)
  {
    var f := x => BookKey(b, table, now, x);
    assert TopByKey(top, entries, f, TOP_K);
    TopIdsIncluded(top, entries, f, TOP_K);
    forall i, j | 0 <= i < j < |top| ensures f(Ids(top)[i]) >= f(Ids(top)[j]) {
      TopIdsSorted(top, entries, f, TOP_K, i, j);
    }
    var left := multiset(Ids(entries)) - multiset(Ids(top));
    forall i, y | 0 <= i < |top| && y in left ensures f(Ids(top)[i]) >= f(y) {
      TopIdsBest(top, entries, f, TOP_K, i, y);
    }
  }

  lemma TopListIsBookList(list: seq<int>, s: State, b: Book, pair: PairInfo, table: nat, now: int)
    requires Coupled(s, b) && pair.ppsID < |s.rows|
    requires ShowsTop(list, PairEntries(s, pair, table, now))
    ensures BookList(list, b, pair.binTagID, table, now)
  {
    var entries := PairEntries(s, pair, table, now);
    var top :| TopEntries(top, entries, TOP_K) && list == Padded(Ids(top));
    EntriesAreCandidates(s, b, pair, table, now);
    TopIsBest(top, entries, b, table, now);
    assert |top| == Min(|Candidates(b, pair.binTagID, table, now, NUM_ORDERS)|, TOP_K) by {
      assert |multiset(Ids(entries))| == |entries|;
    }
    assert list[..|top|] == Ids(top);
  }

  /**
   * Whatever run of ingests, evictions, pair changes and cycles led here, each list of the buffer
   * published by the last cycle is the book's list for its pair and table.
   */
  lemma PublishedListsAreTopK(numPPS: nat, pairs: seq<PairInfo>, acts: seq<Action>, s: State, p: nat, table: nat)
    requires WellKept(Init(numPPS, pairs))
    requires IsRun(Init(numPPS, pairs), acts, s)
    requires acts != [] && acts[|acts| - 1].Cycle?
    requires p < |s.pairs| && table < NUM_TABLES
    ensures var last := acts[|acts| - 1];
            && |last.buf| == ListOffset(|s.pairs|, 0)
            && BookList(ListAt(last.buf, p, table), NaiveRun(acts), s.pairs[p].binTagID, table, last.now)
  {
    var last := acts[|acts| - 1];
    RunCoupled(numPPS, pairs, acts, s);
    assert s.pairs[p] in s.pairs;
    TopListIsBookList(ListAt(last.buf, p, table), s, NaiveRun(acts), s.pairs[p], table, last.now);
  }

  // ---- What a reader gets, and when ids repeat ----

  lemma {:induction false} ServedPrefix(list: seq<int>, k: nat, m: nat)
    requires m <= |list| && -1 !in list[..m] && (m < |list| ==> list[m] == -1)
    ensures Served(list, k) == list[..Min(k, m)]
  {
    if k == 0 || m == 0 {
    } else {
      assert list[0] == list[..m][0] && list[1..][..m - 1] == list[..m][1..];
      ServedPrefix(list[1..], k - 1, m - 1);
      assert list[..Min(k, m)] == [list[0]] + list[1..][..Min(k - 1, m - 1)];
    }
  }

  /** Asking for k ids of a published list yields its first min(k, n) ids, and never a padding value. */
  lemma ServedFromBookList(list: seq<int>, b: Book, tag: nat, table: nat, now: int, k: nat)
    requires BookList(list, b, tag, table, now)
    ensures var m := Min(|Candidates(b, tag, table, now, NUM_ORDERS)|, TOP_K);
            Served(list, k) == list[..Min(k, m)] && -1 !in Served(list, k)
  {
    var cand := Candidates(b, tag, table, now, NUM_ORDERS);
    var m := Min(|cand|, TOP_K);
    CandidateWeight(b, tag, table, now, NUM_ORDERS, -1);
    assert -1 !in multiset(list[..m]);
    ServedPrefix(list, k, m);
    assert list[..Min(k, m)] == list[..m][..Min(k, m)];
  }

  ghost predicate NoRepeats(ids: seq<int>) { forall i, j :: 0 <= i < j < |ids| ==> ids[i] != ids[j] }

  lemma {:induction false} NoRepeatsCounted(ids: seq<int>)
    ensures NoRepeats(ids) <==> forall x :: Count(ids, x) <= 1
  {
    if ids == [] {
    } else {
      var front, last := ids[..|ids| - 1], ids[|ids| - 1];
      SnocSplit(ids);
      NoRepeatsCounted(front);
      assert forall x :: Count(ids, x) == Count(front, x) + if x == last then 1 else 0;
      if NoRepeats(ids) {
        assert last !in front;
        assert Count(front, last) == 0;
      }
      if forall x :: Count(ids, x) <= 1 {
        assert Count(ids, last) <= 1;
        assert last !in front;
        forall i, j | 0 <= i < j < |ids| ensures ids[i] != ids[j] {
          assert i < |front| && front[i] == ids[i];
          assert j < |front| ==> front[j] == ids[j];
        }
      }
    }
  }

  /** No candidate order lists the pair's tag twice. */
  ghost predicate TagListedOnce(b: Book, tag: nat, table: nat, now: int)
  {
    forall o: nat :: o < NUM_ORDERS ==> Weight(b, tag, table, now, o) <= 1
  }

  /**
   * A list repeats no order when no candidate lists the tag twice; when every candidate fits into
   * the list, that condition is exact.
   */
  lemma ListRepeatsOnlyRepeatedTags(list: seq<int>, b: Book, tag: nat, table: nat, now: int)
    requires BookList(list, b, tag, table, now)
    ensures var cand := Candidates(b, tag, table, now, NUM_ORDERS);
            var ids := list[..Min(|cand|, TOP_K)];
            && (TagListedOnce(b, tag, table, now) ==> NoRepeats(ids))
            && (|cand| <= TOP_K ==> (NoRepeats(ids) <==> TagListedOnce(b, tag, table, now)))
  {
    var cand := Candidates(b, tag, table, now, NUM_ORDERS);
    var ids := list[..Min(|cand|, TOP_K)];
    NoRepeatsCounted(ids);
    forall x: int ensures Count(ids, x) <= cand[x] == if 0 <= x < NUM_ORDERS then Weight(b, tag, table, now, x) else 0 {
      CandidateWeight(b, tag, table, now, NUM_ORDERS, x);
    }
    if |cand| <= TOP_K {
      assert |multiset(ids)| == |cand|;
      assert multiset(ids) == cand by {
        assert cand == multiset(ids) + (cand - multiset(ids));
      }
      if NoRepeats(ids) {
        forall o: nat | o < NUM_ORDERS ensures Weight(b, tag, table, now, o) <= 1 {
          assert Count(ids, o) == cand[o];
        }
      }
    }
  }

  /**
   * What decides repetition in a list of any length: a candidate above the last listed key stands in the
   * list as often as it lists the tag, one below it not at all. Only ties at the cut stay open.
   */
  lemma ListedAsOftenAsTagged(list: seq<int>, b: Book, tag: nat, table: nat, now: int, o: nat)
    requires BookList(list, b, tag, table, now) && o < NUM_ORDERS
    ensures var n := |Candidates(b, tag, table, now, NUM_ORDERS)|;
            var ids := list[..Min(n, TOP_K)];
            && Count(ids, o) <= Weight(b, tag, table, now, o)
            && (n <= TOP_K ==> Count(ids, o) == Weight(b, tag, table, now, o))
            && (n > TOP_K && BookKey(b, table, now, o) > BookKey(b, table, now, list[TOP_K - 1]) ==>
                  Count(ids, o) == Weight(b, tag, table, now, o))
            && (n > TOP_K && BookKey(b, table, now, o) < BookKey(b, table, now, list[TOP_K - 1]) ==> Count(ids, o) == 0)
  {
    var cand := Candidates(b, tag, table, now, NUM_ORDERS);
    var ids := list[..Min(|cand|, TOP_K)];
    CandidateWeight(b, tag, table, now, NUM_ORDERS, o);
    if |cand| <= TOP_K {
      assert cand == multiset(ids) + (cand - multiset(ids));
    } else {
      var last := ids[TOP_K - 1];
      if Count(ids, o) < cand[o] {
        assert (o as int) in cand - multiset(ids);
        assert BookKey(b, table, now, last) >= BookKey(b, table, now, o);
      }
      if Count(ids, o) > 0 {
        assert (o as int) in multiset(ids);
        var i :| 0 <= i < |ids| && ids[i] == o;
        assert BookKey(b, table, now, ids[i]) >= BookKey(b, table, now, last);
      }
    }
  }
}
