/** The engine's laws, read off the lists that a run's last cycle published. */
module PublishedLaws {
  import opened Common
  import opened SeqFacts
  import opened Ranking
  import opened Index
  import opened GoState
  import opened Naive
  import opened Headline
  import opened GoLaws
  import opened CriticalLaw

  /** A run that ends in a cycle, and the state it leads to. */
  ghost predicate Publishes(numPPS: nat, pairs: seq<PairInfo>, acts: seq<Action>, s: State)
  {
    && WellKept(Init(numPPS, pairs)) && IsRun(Init(numPPS, pairs), acts, s)
    && acts != [] && acts[|acts| - 1].Cycle?
  }

  /** The list of pair p and table t in the buffer of the last cycle. */
  function LastList(acts: seq<Action>, p: nat, table: nat): (list: seq<int>)
    requires acts != [] && acts[|acts| - 1].Cycle? && ListOffset(p, table) + TOP_K <= |acts[|acts| - 1].buf|
    ensures |list| == TOP_K
  {
    ListAt(acts[|acts| - 1].buf, p, table)
  }

  /** The keys, by the book, of the ids a reader gets from a list. */
  ghost function ShownKeys(list: seq<int>, b: Book, table: nat, now: int): (keys: seq<int>)
  {
    var ids := Served(list, TOP_K);
    seq(|ids|, i requires 0 <= i < |ids| => BookKey(b, table, now, ids[i]))
  }

  lemma PublishedBuffer(numPPS: nat, pairs: seq<PairInfo>, acts: seq<Action>, s: State)
    requires Publishes(numPPS, pairs, acts, s)
    ensures Coupled(s, NaiveRun(acts)) && PairsInside(s) && Tidy(s)
    ensures Ranked(acts[|acts| - 1].buf, s, acts[|acts| - 1].now)
  {
    RunCoupled(numPPS, pairs, acts, s);
    ReachableIsTidy(numPPS, pairs, acts, s);
  }

  /** The entries behind a published list: its ids and its keys are theirs. */
  lemma ShownEntries(list: seq<int>, s: State, b: Book, pair: PairInfo, table: nat, now: int)
    returns (top: seq<ScoreEntry>)
    requires Coupled(s, b) && pair.ppsID < |s.rows| && ShowsTop(list, PairEntries(s, pair, table, now))
    ensures TopEntries(top, PairEntries(s, pair, table, now), TOP_K)
    ensures ShownKeys(list, b, table, now) == Scores(top)
  {
    var entries := PairEntries(s, pair, table, now);
    top :| TopEntries(top, entries, TOP_K) && list == Padded(Ids(top));
    EntriesAreCandidates(s, b, pair, table, now);
    EntryShape(s.meta, s.rows[pair.ppsID], At(s.binTags.fwd, pair.binTagID), table, now);
    KeysOfTop(top, entries, b, table, now);
  }

  lemma KeysOfTop(top: seq<ScoreEntry>, entries: seq<ScoreEntry>, b: Book, table: nat, now: int)
    requires |top| <= TOP_K && multiset(top) <= multiset(entries)
    requires forall e :: e in entries ==> e.id >= 0 && e.score == BookKey(b, table, now, e.id)
    ensures ShownKeys(Padded(Ids(top)), b, table, now) == Scores(top)
  {
    forall i | 0 <= i < |top| ensures top[i] in entries {
      assert top[i] in multiset(top);
    }
    ServedWhole(Ids(top));
  }

  lemma ServedWhole(ids: seq<int>)
    requires |ids| <= TOP_K && forall i :: 0 <= i < |ids| ==> ids[i] >= 0
    ensures Served(Padded(ids), TOP_K) == ids
  {
    var list := Padded(ids);
    assert list[..|ids|] == ids;
    ServedPrefix(list, TOP_K, |ids|);
  }

  /** Pairs sharing a BinTag show equal key sequences in every table, whatever their PPS. */
  lemma SharedTagShowsSameKeys(numPPS: nat, pairs: seq<PairInfo>, acts: seq<Action>, s: State, p: nat, q: nat,
                               table: nat)
    requires Publishes(numPPS, pairs, acts, s)
    requires p < |s.pairs| && q < |s.pairs| && table < NUM_TABLES && s.pairs[p].binTagID == s.pairs[q].binTagID
    ensures var b, last := NaiveRun(acts), acts[|acts| - 1];
            && |last.buf| == ListOffset(|s.pairs|, 0)
            && ShownKeys(LastList(acts, p, table), b, table, last.now) ==
               ShownKeys(LastList(acts, q, table), b, table, last.now)
  {
    var b, now := NaiveRun(acts), acts[|acts| - 1].now;
    PublishedBuffer(numPPS, pairs, acts, s);
    assert s.pairs[p] in s.pairs && s.pairs[q] in s.pairs;
    var topP := ShownEntries(LastList(acts, p, table), s, b, s.pairs[p], table, now);
    var topQ := ShownEntries(LastList(acts, q, table), s, b, s.pairs[q], table, now);
    SharedTagSameScores(s, s.pairs[p], s.pairs[q], table, now, topP, topQ);
  }

  // ---- The critical list ----

  /** Every order of the book with the tag and a deadline has its 32-bit age on the deadline's side of the cut. */
  ghost predicate BookCutsAgree(b: Book, tag: nat, now: int)
  {
    forall o :: o in b && tag in b[o].binTags && b[o].deadline > 0 ==> CutAgrees(b[o].deadline, now)
  }

  /** Every such order with a 32-bit age of at least x is due within the critical window. */
  ghost predicate BookCriticalFrom(b: Book, tag: nat, now: int, x: int)
  {
    forall o :: o in b && tag in b[o].binTags && b[o].deadline > 0 ==>
      Wrap32(now - b[o].deadline) >= x ==> b[o].deadline <= now + CRITICAL_CUTOFF
  }

  /**
   * When a critical list shows the critical part of a deadline list with the keys pbt. If that part leaves
   * room in the list, every candidate's cut must agree. Otherwise only the deadline list's last key a
   * counts: every candidate above a must be critical, and TOP_K critical candidates at least a.
   */
  ghost predicate BookShowsCriticalPart(b: Book, tag: nat, now: int, pbt: seq<int>)
  {
    if |PrefixAtLeast(pbt, -CRITICAL_CUTOFF)| < TOP_K then BookCutsAgree(b, tag, now)
    else
      var a := pbt[TOP_K - 1];
      && BookCriticalFrom(b, tag, now, a + 1)
      && |AtLeast(Scores(BookSlice(b, tag, CRITICAL, now, NUM_ORDERS)), a)| >= TOP_K
  }

  lemma TaggedOrder(s: State, b: Book, tag: nat, o: nat)
    requires Linked(s, b)
    ensures o in At(s.binTags.fwd, tag) <==> o in b && tag in b[o].binTags
    ensures o in b ==> o < NUM_ORDERS && s.meta[o].active && s.meta[o].pbtDeadline == b[o].deadline
  {
    assert Count(At(s.binTags.fwd, tag), o) == Count(At(s.binTags.rev, o), tag);
    assert o < NUM_ORDERS ==> OrderLinked(s, b, o);
  }

  lemma CutsOfBook(s: State, b: Book, tag: nat, now: int)
    requires Linked(s, b)
    ensures CutsAgree(s.meta, At(s.binTags.fwd, tag), now) <==> BookCutsAgree(b, tag, now)
  {
    forall o: nat
      ensures o in At(s.binTags.fwd, tag) <==> o in b && tag in b[o].binTags
      ensures o in b ==> o < NUM_ORDERS && s.meta[o].active && s.meta[o].pbtDeadline == b[o].deadline
    {
      TaggedOrder(s, b, tag, o);
    }
  }

  lemma CriticalFromOfBook(s: State, b: Book, tag: nat, now: int, x: int)
    requires Linked(s, b)
    ensures CriticalFrom(s.meta, At(s.binTags.fwd, tag), now, x) <==> BookCriticalFrom(b, tag, now, x)
  {
    if CriticalFrom(s.meta, At(s.binTags.fwd, tag), now, x) {
      forall o | o in b && tag in b[o].binTags && b[o].deadline > 0 && Wrap32(now - b[o].deadline) >= x
        ensures b[o].deadline <= now + CRITICAL_CUTOFF
      {
        TaggedOrder(s, b, tag, o);
        assert DueFrom(s.meta, o, now, x);
      }
    }
    if BookCriticalFrom(b, tag, now, x) {
      forall o | o in At(s.binTags.fwd, tag) ensures DueFrom(s.meta, o, now, x) {
        TaggedOrder(s, b, tag, o);
      }
    }
  }

  lemma PartOfBook(s: State, b: Book, pair: PairInfo, now: int, pbt: seq<int>)
    requires Linked(s, b) && pair.ppsID < |s.rows|
    ensures ShowsCriticalPart(s.meta, s.rows[pair.ppsID], At(s.binTags.fwd, pair.binTagID), now, pbt)
            <==> BookShowsCriticalPart(b, pair.binTagID, now, pbt)
  {
    CutsOfBook(s, b, pair.binTagID, now);
    if |PrefixAtLeast(pbt, -CRITICAL_CUTOFF)| >= TOP_K {
      CriticalFromOfBook(s, b, pair.binTagID, now, pbt[TOP_K - 1] + 1);
      EntriesAreBookSlice(s, b, pair, CRITICAL, now);
      var slice := BookSlice(b, pair.binTagID, CRITICAL, now, NUM_ORDERS);
      PermutedAbove(PairEntries(s, pair, CRITICAL, now), slice, pbt[TOP_K - 1]);
    }
  }

  /**
   * The law of the critical list, exactly, for the buffer of any run: the keys of a pair's published
   * critical list are the longest prefix of those of its deadline list at or above -1800 if and only if
   * BookShowsCriticalPart. Agreeing cuts are enough at any length.
   */
  lemma PublishedCriticalLaw(numPPS: nat, pairs: seq<PairInfo>, acts: seq<Action>, s: State, p: nat)
    requires Publishes(numPPS, pairs, acts, s) && p < |s.pairs|
    ensures var b, last, tag := NaiveRun(acts), acts[|acts| - 1], s.pairs[p].binTagID;
            && |last.buf| == ListOffset(|s.pairs|, 0)
            && var pbt := ShownKeys(LastList(acts, p, PBT), b, PBT, last.now);
               var crit := ShownKeys(LastList(acts, p, CRITICAL), b, CRITICAL, last.now);
               && (crit == PrefixAtLeast(pbt, -CRITICAL_CUTOFF) <==> BookShowsCriticalPart(b, tag, last.now, pbt))
               && (BookCutsAgree(b, tag, last.now) ==> crit == PrefixAtLeast(pbt, -CRITICAL_CUTOFF))
  {
    var b, now, pair := NaiveRun(acts), acts[|acts| - 1].now, s.pairs[p];
    PublishedBuffer(numPPS, pairs, acts, s);
    assert pair in s.pairs;
    var pbt := ShownEntries(LastList(acts, p, PBT), s, b, pair, PBT, now);
    var crit := ShownEntries(LastList(acts, p, CRITICAL), s, b, pair, CRITICAL, now);
    CriticalLists(s, b, pair, now, pbt, crit);
  }

  lemma CriticalLists(s: State, b: Book, pair: PairInfo, now: int, pbt: seq<ScoreEntry>, crit: seq<ScoreEntry>)
    requires Linked(s, b) && pair.ppsID < |s.rows|
    requires TopEntries(pbt, PairEntries(s, pair, PBT, now), TOP_K)
    requires TopEntries(crit, PairEntries(s, pair, CRITICAL, now), TOP_K)
    ensures Scores(crit) == PrefixAtLeast(Scores(pbt), -CRITICAL_CUTOFF)
            <==> BookShowsCriticalPart(b, pair.binTagID, now, Scores(pbt))
    ensures BookCutsAgree(b, pair.binTagID, now) ==> Scores(crit) == PrefixAtLeast(Scores(pbt), -CRITICAL_CUTOFF)
  {
    CriticalLawExactly(s.meta, s.rows[pair.ppsID], At(s.binTags.fwd, pair.binTagID), now, pbt, crit);
    PartOfBook(s, b, pair, now, Scores(pbt));
    CutsOfBook(s, b, pair.binTagID, now);
    if BookCutsAgree(b, pair.binTagID, now) {
      CriticalIsPrefixOfDeadlines(s, pair, now, pbt, crit);
    }
  }

  // ---- Two orders that break a promise ----

  /** A run that ingests one event and publishes. */
  function OneOrderRun(evt: OrderEvent, buf: seq<int>): seq<Action> { [Ingested(evt, 1), Cycle([], 1, buf)] }

  lemma OneOrderBook(evt: OrderEvent, buf: seq<int>)
    ensures NaiveRun(OneOrderRun(evt, buf)) ==
            map[evt.orderID := Booked(evt, 1, BaseScore(evt))]
  {
    var acts := OneOrderRun(evt, buf);
    var front := acts[..|acts| - 1];
    assert front == [Ingested(evt, 1)] && front[..|front| - 1] == [];
    assert NaiveRun([]) == map[];
    var first := NaiveRun(front);
    assert first == NaiveStep(map[], Ingested(evt, 1));
    GatherNoUpdates(evt.tpids);
    assert NaiveRun(acts) == NaiveStep(first, acts[1]);
  }

  lemma GatherNoUpdates(tpids: seq<nat>)
    ensures Gather(tpids, []) == 0
  {
  }

  lemma OneOrderCandidates(evt: OrderEvent, buf: seq<int>, tag: nat, table: nat, x: int)
    ensures Candidates(NaiveRun(OneOrderRun(evt, buf)), tag, table, 1, NUM_ORDERS)[x] ==
            if x == evt.orderID < NUM_ORDERS && Passes(evt.requiredQty, evt.pbtDeadline, table, 1)
            then Count(evt.binTags, tag) else 0
  {
    OneOrderBook(evt, buf);
    CandidateWeight(NaiveRun(OneOrderRun(evt, buf)), tag, table, 1, NUM_ORDERS, x);
  }

  /** A list published after that run names the one order, 0, once per mention of the tag. */
  lemma OneOrderPublished(numPPS: nat, pairs: seq<PairInfo>, evt: OrderEvent, buf: seq<int>, s: State, p: nat,
                          table: nat, n: nat)
    requires Publishes(numPPS, pairs, OneOrderRun(evt, buf), s) && p < |s.pairs| && table < NUM_TABLES
    requires evt.orderID == 0 && n <= TOP_K
    requires n == if Passes(evt.requiredQty, evt.pbtDeadline, table, 1)
                  then Count(evt.binTags, s.pairs[p].binTagID) else 0
    ensures |buf| == ListOffset(|s.pairs|, 0) && ListAt(buf, p, table) == Padded(Repeat(0, n))
  {
    var acts, tag := OneOrderRun(evt, buf), s.pairs[p].binTagID;
    PublishedListsAreTopK(numPPS, pairs, acts, s, p, table);
    forall x ensures Candidates(NaiveRun(acts), tag, table, 1, NUM_ORDERS)[x] == if x == 0 then n else 0 {
      OneOrderCandidates(evt, buf, tag, table, x);
    }
    OnlyZeros(ListAt(buf, p, table), NaiveRun(acts), tag, table, 1, n);
  }

  const TWICE_TAGGED: OrderEvent := OrderEvent(0, 1.0, -1, [], [7, 7], 0.5)

  /** An event that names a tag twice: the buffer published next shows its order twice, and nothing else. */
  lemma RepeatedTagRepeatsOrder(numPPS: nat, pairs: seq<PairInfo>, buf: seq<int>, s: State, p: nat)
    requires Publishes(numPPS, pairs, OneOrderRun(TWICE_TAGGED, buf), s)
    requires p < |s.pairs| && s.pairs[p].binTagID == 7
    ensures |buf| == ListOffset(|s.pairs|, 0) && ListAt(buf, p, HEURISTIC) == Padded([0, 0])
  {
    OneOrderPublished(numPPS, pairs, TWICE_TAGGED, buf, s, p, HEURISTIC, 2);
    assert Repeat<int>(0, 2) == [0, 0];
  }

  /** A list whose only candidate is order 0, n times over. */
  lemma OnlyZeros(list: seq<int>, b: Book, tag: nat, table: nat, now: int, n: nat)
    requires BookList(list, b, tag, table, now) && n <= TOP_K
    requires forall x :: Candidates(b, tag, table, now, NUM_ORDERS)[x] == if x == 0 then n else 0
    ensures list == Padded(Repeat(0, n))
  {
    var cand, zeros := Candidates(b, tag, table, now, NUM_ORDERS), Repeat<int>(0, n);
    forall x ensures cand[x] == multiset(zeros)[x] {
      RepeatCount(0, n, x);
    }
    assert cand == multiset(zeros) && |cand| == n;
    var ids := list[..n];
    forall i | 0 <= i < n ensures ids[i] == 0 {
      assert ids[i] in multiset(ids);
    }
    forall i | 0 <= i < n ensures zeros[i] == 0 {
      assert zeros[i] in zeros;
    }
    assert list == ids + list[n..] && list == Padded(zeros);
  }

  /** Due some 68 years ahead: now - deadline wraps to the largest 32-bit age. */
  const FAR_AHEAD: OrderEvent := OrderEvent(0, 1.0, 0x8000_0000 + 2, [], [7], 0.5)

  /** The far deadline leads the deadline list with the largest key there is, and the critical list is empty. */
  lemma FarDeadlineBreaksCriticalLaw(numPPS: nat, pairs: seq<PairInfo>, buf: seq<int>, s: State, p: nat)
    requires Publishes(numPPS, pairs, OneOrderRun(FAR_AHEAD, buf), s)
    requires p < |s.pairs| && s.pairs[p].binTagID == 7
    ensures |buf| == ListOffset(|s.pairs|, 0)
    ensures ListAt(buf, p, PBT) == Padded([0]) && ListAt(buf, p, CRITICAL) == Padded([])
    ensures BookKey(NaiveRun(OneOrderRun(FAR_AHEAD, buf)), PBT, 1, 0) == 0x7FFF_FFFF
    ensures !BookCutsAgree(NaiveRun(OneOrderRun(FAR_AHEAD, buf)), 7, 1)
  {
    var acts := OneOrderRun(FAR_AHEAD, buf);
    OneOrderBook(FAR_AHEAD, buf);
    assert 0 in NaiveRun(acts) && 7 in FAR_AHEAD.binTags;
    OneOrderPublished(numPPS, pairs, FAR_AHEAD, buf, s, p, PBT, 1);
    OneOrderPublished(numPPS, pairs, FAR_AHEAD, buf, s, p, CRITICAL, 0);
    assert Repeat<int>(0, 1) == [0];
  }
}
