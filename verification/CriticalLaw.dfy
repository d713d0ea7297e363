/** When a pair's critical list shows exactly the critical part of its deadline list. */
module CriticalLaw {
  import opened Common
  import opened SeqFacts
  import opened Ranking
  import opened Selection
  import opened GoState

  /** The 32-bit deadline score falls on the side of the cut where the deadline itself falls. */
  predicate CutAgrees(deadline: int, now: int)
  {
    deadline <= now + CRITICAL_CUTOFF <==> Wrap32(now - deadline) >= -CRITICAL_CUTOFF
  }

  /** That holds whenever now - deadline fits in 32 bits; beyond, only if it wraps onto the same side. */
  lemma CutAgreesExactly(deadline: int, now: int)
    ensures var age := now - deadline;
            CutAgrees(deadline, now) <==>
            || INT32_MIN <= age < -INT32_MIN
            || (age >= -INT32_MIN && Wrap32(age) >= -CRITICAL_CUTOFF)
            || (age < INT32_MIN && Wrap32(age) < -CRITICAL_CUTOFF)
  {
  }

  ghost predicate CutsAgree(meta: seq<OrderMeta>, eligible: seq<nat>, now: int)
  {
    forall o :: o in eligible && o < |meta| && meta[o].active && meta[o].pbtDeadline > 0 ==>
      CutAgrees(meta[o].pbtDeadline, now)
  }

  lemma {:induction false} CriticalEntries(meta: seq<OrderMeta>, row: seq<int>, eligible: seq<nat>, now: int)
    requires |meta| == |row| == NUM_ORDERS
    requires CutsAgree(meta, eligible, now)
    ensures Scores(Entries(meta, row, eligible, CRITICAL, now)) ==
            AtLeast(Scores(Entries(meta, row, eligible, PBT, now)), -CRITICAL_CUTOFF)
  {
    if eligible == [] {
    } else {
      var front, o := eligible[..|eligible| - 1], eligible[|eligible| - 1];
      SnocSplit(eligible);
      CriticalEntries(meta, row, front, now);
      var crit, pbt := Entries(meta, row, front, CRITICAL, now), Entries(meta, row, front, PBT, now);
      if Eligible(meta, o, PBT, now) {
        var e := ScoreEntry(RankKey(row[o], meta[o].pbtDeadline, PBT, now), o);
        assert Scores(pbt + [e]) == Scores(pbt) + [e.score];
        assert Scores(crit + [e]) == Scores(crit) + [e.score];
        AtLeastAppend(Scores(pbt), e.score, -CRITICAL_CUTOFF);
      }
    }
  }

  lemma {:induction false} AtLeastAppend(s: seq<int>, x: int, c: int)
    ensures AtLeast(s + [x], c) == AtLeast(s, c) + if x >= c then [x] else []
  {
    if s == [] {
      assert s + [x] == [x] && AtLeast([x][1..], c) == [];
    } else {
      var longer := s + [x];
      assert longer[0] == s[0] && longer[1..] == s[1..] + [x];
      AtLeastAppend(s[1..], x, c);
      assert AtLeast(longer, c) == (if s[0] >= c then [s[0]] else []) + AtLeast(longer[1..], c);
    }
  }

  /**
   * The published critical scores are the longest prefix of the pair's published deadline scores
   * that is at least -1800, even when both candidate sets overflow and ties cross the cut.
   */
  lemma CriticalIsPrefixOfDeadlines(s: State, pair: PairInfo, now: int, pbt: seq<ScoreEntry>, crit: seq<ScoreEntry>)
    requires Shaped(s) && pair.ppsID < |s.rows|
    requires CutsAgree(s.meta, At(s.binTags.fwd, pair.binTagID), now)
    requires TopEntries(pbt, PairEntries(s, pair, PBT, now), TOP_K)
    requires TopEntries(crit, PairEntries(s, pair, CRITICAL, now), TOP_K)
    ensures Scores(crit) == PrefixAtLeast(Scores(pbt), -CRITICAL_CUTOFF)
  {
    CriticalEntries(s.meta, s.rows[pair.ppsID], At(s.binTags.fwd, pair.binTagID), now);
    var all, some := PairEntries(s, pair, PBT, now), PairEntries(s, pair, CRITICAL, now);
    ThresholdListIsPrefix(pbt, all, crit, some, -CRITICAL_CUTOFF);
  }

  /** If order o is a deadline candidate with a key of at least x, it is due within the critical window. */
  ghost predicate DueFrom(meta: seq<OrderMeta>, o: nat, now: int, x: int)
    requires |meta| == NUM_ORDERS
  {
    Eligible(meta, o, PBT, now) && Wrap32(now - meta[o].pbtDeadline) >= x ==>
      meta[o].pbtDeadline <= now + CRITICAL_CUTOFF
  }

  /** Every deadline candidate with a key of at least x is due within the critical window. */
  ghost predicate CriticalFrom(meta: seq<OrderMeta>, eligible: seq<nat>, now: int, x: int)
    requires |meta| == NUM_ORDERS
  {
    forall o :: o in eligible ==> DueFrom(meta, o, now, x)
  }

  /** The scores of at least x that a pass over the list leaves in one table. */
  function ScoresFrom(meta: seq<OrderMeta>, row: seq<int>, eligible: seq<nat>, table: nat, now: int, x: int): seq<int>
    requires |meta| == |row| == NUM_ORDERS
  {
    AtLeast(Scores(Entries(meta, row, eligible, table, now)), x)
  }

  lemma ScoresSnoc(s: seq<ScoreEntry>, e: ScoreEntry)
    ensures Scores(s + [e]) == Scores(s) + [e.score]
  {
  }

  lemma ScoresFromSnoc(meta: seq<OrderMeta>, row: seq<int>, front: seq<nat>, o: nat, table: nat, now: int, x: int)
    requires |meta| == |row| == NUM_ORDERS
    ensures ScoresFrom(meta, row, front + [o], table, now, x) == ScoresFrom(meta, row, front, table, now, x) +
              if Eligible(meta, o, table, now) && RankKey(row[o], meta[o].pbtDeadline, table, now) >= x
              then [RankKey(row[o], meta[o].pbtDeadline, table, now)] else []
  {
    EntriesSnoc(meta, row, front, o, table, now);
    if Eligible(meta, o, table, now) {
      var entries := Entries(meta, row, front, table, now);
      var e := ScoreEntry(RankKey(row[o], meta[o].pbtDeadline, table, now), o);
      ScoresSnoc(entries, e);
      AtLeastAppend(Scores(entries), e.score, x);
    }
  }

  /** From any key on, the critical scores are the deadline scores exactly when every such candidate is critical. */
  lemma {:induction false} CriticalScoresFrom(meta: seq<OrderMeta>, row: seq<int>, eligible: seq<nat>, now: int, x: int)
    requires |meta| == |row| == NUM_ORDERS
    ensures var crit := ScoresFrom(meta, row, eligible, CRITICAL, now, x);
            var pbt := ScoresFrom(meta, row, eligible, PBT, now, x);
            && |crit| <= |pbt|
            && (|crit| == |pbt| <==> CriticalFrom(meta, eligible, now, x))
            && (CriticalFrom(meta, eligible, now, x) ==> crit == pbt)
  {
    if eligible == [] {
    } else {
      var front, o := eligible[..|eligible| - 1], eligible[|eligible| - 1];
      assert eligible == front + [o];
      CriticalScoresFrom(meta, row, front, now, x);
      ScoresFromSnoc(meta, row, front, o, CRITICAL, now, x);
      ScoresFromSnoc(meta, row, front, o, PBT, now, x);
      assert CriticalFrom(meta, eligible, now, x) <==> CriticalFrom(meta, front, now, x) && DueFrom(meta, o, now, x);
    }
  }

  /** Every candidate in the list has its entry. */
  lemma {:induction false} EntryOf(meta: seq<OrderMeta>, row: seq<int>, eligible: seq<nat>, table: nat, now: int,
                                   o: nat)
    requires |meta| == |row| == NUM_ORDERS
    requires o in eligible && Eligible(meta, o, table, now)
    ensures ScoreEntry(RankKey(row[o], meta[o].pbtDeadline, table, now), o) in Entries(meta, row, eligible, table, now)
  {
    var front, last := eligible[..|eligible| - 1], eligible[|eligible| - 1];
    assert eligible == front + [last];
    if o in front {
      EntryOf(meta, row, front, table, now, o);
    } else {
      assert o == last;
    }
  }

  lemma {:induction false} AtLeastWhole(s: seq<int>, c: int)
    requires forall i :: 0 <= i < |s| ==> s[i] >= c
    ensures AtLeast(s, c) == s
  {
    if s == [] {
    } else {
      ConsSplit(s);
      AtLeastWhole(s[1..], c);
    }
  }

  lemma {:induction false} AtLeastNone(s: seq<int>, c: int)
    requires forall i :: 0 <= i < |s| ==> s[i] < c
    ensures AtLeast(s, c) == []
  {
    if s == [] {
    } else {
      AtLeastNone(s[1..], c);
    }
  }

  /** Critical scores all at or above the cut, and as many as such deadline scores, make every cut agree. */
  lemma EqualCountsAgree(meta: seq<OrderMeta>, row: seq<int>, eligible: seq<nat>, now: int)
    requires |meta| == |row| == NUM_ORDERS
    requires var crit := Entries(meta, row, eligible, CRITICAL, now);
             && (forall e :: e in crit ==> e.score >= -CRITICAL_CUTOFF)
             && |crit| == |ScoresFrom(meta, row, eligible, PBT, now, -CRITICAL_CUTOFF)|
    ensures CutsAgree(meta, eligible, now)
  {
    var crit := Entries(meta, row, eligible, CRITICAL, now);
    AtLeastWhole(Scores(crit), -CRITICAL_CUTOFF);
    CriticalScoresFrom(meta, row, eligible, now, -CRITICAL_CUTOFF);
    forall o | o in eligible && o < |meta| && meta[o].active && meta[o].pbtDeadline > 0
      ensures CutAgrees(meta[o].pbtDeadline, now)
    {
      assert DueFrom(meta, o, now, -CRITICAL_CUTOFF);
      if meta[o].pbtDeadline <= now + CRITICAL_CUTOFF {
        EntryOf(meta, row, eligible, CRITICAL, now, o);
      }
    }
  }

  /**
   * When the critical list shows the critical part of a deadline list with the scores pbt. If that part
   * leaves room in the list, every candidate's cut must agree. Otherwise only the deadline list's last
   * score a counts: every candidate above a must be critical, and TOP_K critical candidates at least a.
   */
  ghost predicate ShowsCriticalPart(meta: seq<OrderMeta>, row: seq<int>, eligible: seq<nat>, now: int, pbt: seq<int>)
    requires |meta| == |row| == NUM_ORDERS
  {
    if |PrefixAtLeast(pbt, -CRITICAL_CUTOFF)| < TOP_K then CutsAgree(meta, eligible, now)
    else
      var a := pbt[TOP_K - 1];
      && CriticalFrom(meta, eligible, now, a + 1)
      && |ScoresFrom(meta, row, eligible, CRITICAL, now, a)| >= TOP_K
  }

  /**
   * The law of the critical scores, exactly, for lists of any length: the critical list shows the longest
   * prefix of the deadline list at or above the cut if and only if ShowsCriticalPart.
   */
  lemma CriticalLawExactly(meta: seq<OrderMeta>, row: seq<int>, eligible: seq<nat>, now: int,
                           pbt: seq<ScoreEntry>, crit: seq<ScoreEntry>)
    requires |meta| == |row| == NUM_ORDERS
    requires TopEntries(pbt, Entries(meta, row, eligible, PBT, now), TOP_K)
    requires TopEntries(crit, Entries(meta, row, eligible, CRITICAL, now), TOP_K)
    ensures Scores(crit) == PrefixAtLeast(Scores(pbt), -CRITICAL_CUTOFF)
            <==> ShowsCriticalPart(meta, row, eligible, now, Scores(pbt))
  {
    if |PrefixAtLeast(Scores(pbt), -CRITICAL_CUTOFF)| < TOP_K {
      ShortCriticalPart(meta, row, eligible, now, pbt, crit);
    } else {
      FullCriticalPart(meta, row, eligible, now, pbt, crit);
    }
  }

  lemma ShortCriticalPart(meta: seq<OrderMeta>, row: seq<int>, eligible: seq<nat>, now: int,
                          pbt: seq<ScoreEntry>, crit: seq<ScoreEntry>)
    requires |meta| == |row| == NUM_ORDERS
    requires TopEntries(pbt, Entries(meta, row, eligible, PBT, now), TOP_K)
    requires TopEntries(crit, Entries(meta, row, eligible, CRITICAL, now), TOP_K)
    requires |PrefixAtLeast(Scores(pbt), -CRITICAL_CUTOFF)| < TOP_K
    ensures Scores(crit) == PrefixAtLeast(Scores(pbt), -CRITICAL_CUTOFF) <==> CutsAgree(meta, eligible, now)
  {
    var all, some := Entries(meta, row, eligible, PBT, now), Entries(meta, row, eligible, CRITICAL, now);
    if CutsAgree(meta, eligible, now) {
      CriticalEntries(meta, row, eligible, now);
      ThresholdListIsPrefix(pbt, all, crit, some, -CRITICAL_CUTOFF);
    } else if Scores(crit) == PrefixAtLeast(Scores(pbt), -CRITICAL_CUTOFF) {
      SameShortPart(pbt, all, crit, some, -CRITICAL_CUTOFF);
      EqualCountsAgree(meta, row, eligible, now);
    }
  }

  /** Top lists that agree up to a threshold, with room to spare, saw the same scores up to it. */
  lemma SameShortPart(top: seq<ScoreEntry>, all: seq<ScoreEntry>, part: seq<ScoreEntry>, some: seq<ScoreEntry>, c: int)
    requires TopEntries(top, all, TOP_K) && TopEntries(part, some, TOP_K)
    requires Scores(part) == PrefixAtLeast(Scores(top), c) && |part| < TOP_K
    ensures |some| == |AtLeast(Scores(all), c)| && forall e :: e in some ==> e.score >= c
  {
    WholeList(part, some);
    TopScores(top, all, TOP_K);
    ShortPrefix(Scores(all), c, |top|);
    SameSortedScores(some, all, c);
  }

  lemma ShortPrefix(s: seq<int>, c: int, k: nat)
    requires k == Min(|s|, TOP_K)
    ensures |SortDesc(s)| == |s|
    ensures var front := PrefixAtLeast(SortDesc(s)[..k], c);
            |front| < TOP_K ==> front == SortDesc(AtLeast(s, c))
  {
    SortDescFacts(s);
    PrefixTruncated(SortDesc(s), c, TOP_K);
    SortAtLeast(s, c);
  }

  lemma FullCriticalPart(meta: seq<OrderMeta>, row: seq<int>, eligible: seq<nat>, now: int,
                         pbt: seq<ScoreEntry>, crit: seq<ScoreEntry>)
    requires |meta| == |row| == NUM_ORDERS
    requires TopEntries(pbt, Entries(meta, row, eligible, PBT, now), TOP_K)
    requires TopEntries(crit, Entries(meta, row, eligible, CRITICAL, now), TOP_K)
    requires |PrefixAtLeast(Scores(pbt), -CRITICAL_CUTOFF)| >= TOP_K
    ensures Scores(crit) == PrefixAtLeast(Scores(pbt), -CRITICAL_CUTOFF)
            <==> ShowsCriticalPart(meta, row, eligible, now, Scores(pbt))
  {
    TopScores(pbt, Entries(meta, row, eligible, PBT, now), TOP_K);
    TopScores(crit, Entries(meta, row, eligible, CRITICAL, now), TOP_K);
    FullPartShown(meta, row, eligible, now, Scores(pbt), Scores(crit));
  }

  /** The sorted scores of a table, cut to a list. */
  ghost predicate ShowsSorted(list: seq<int>, all: seq<int>)
  {
    |list| == Min(|SortDesc(all)|, TOP_K) && list == SortDesc(all)[..|list|]
  }

  lemma FullPartShown(meta: seq<OrderMeta>, row: seq<int>, eligible: seq<nat>, now: int, top: seq<int>, part: seq<int>)
    requires |meta| == |row| == NUM_ORDERS
    requires ShowsSorted(top, Scores(Entries(meta, row, eligible, PBT, now)))
    requires ShowsSorted(part, Scores(Entries(meta, row, eligible, CRITICAL, now)))
    requires |PrefixAtLeast(top, -CRITICAL_CUTOFF)| >= TOP_K
    ensures part == PrefixAtLeast(top, -CRITICAL_CUTOFF) <==> ShowsCriticalPart(meta, row, eligible, now, top)
  {
    assert PrefixAtLeast(top, -CRITICAL_CUTOFF) == top;
    CriticalScoresFrom(meta, row, eligible, now, top[TOP_K - 1] + 1);
    SameFullList(part, top, Scores(Entries(meta, row, eligible, CRITICAL, now)),
                 Scores(Entries(meta, row, eligible, PBT, now)));
  }

  /** When two lists, the second of them full, show the same scores. */
  lemma SameFullList(part: seq<int>, top: seq<int>, some: seq<int>, all: seq<int>)
    requires ShowsSorted(part, some) && ShowsSorted(top, all) && |top| == TOP_K
    requires SameAbove(some, all, top[TOP_K - 1] + 1)
    ensures part == top <==>
            && |AtLeast(some, top[TOP_K - 1] + 1)| == |AtLeast(all, top[TOP_K - 1] + 1)|
            && |AtLeast(some, top[TOP_K - 1])| >= TOP_K
  {
    var a := top[TOP_K - 1];
    FrontShown(part, top, some, all);
    if SameFront(some, all, TOP_K, a) {
      FrontCounts(some, all, TOP_K, a);
    } else if |AtLeast(some, a + 1)| == |AtLeast(all, a + 1)| && |AtLeast(some, a)| >= TOP_K {
      FrontFromCounts(some, all, TOP_K, a);
    }
  }

  lemma FrontShown(part: seq<int>, top: seq<int>, some: seq<int>, all: seq<int>)
    requires ShowsSorted(part, some) && ShowsSorted(top, all) && |top| == TOP_K
    ensures TOP_K <= |SortDesc(all)| && SortDesc(all)[TOP_K - 1] == top[TOP_K - 1]
    ensures part == top <==> SameFront(some, all, TOP_K, top[TOP_K - 1])
  {
    assert top[TOP_K - 1] == SortDesc(all)[..TOP_K][TOP_K - 1];
  }

  /** Two bags have the same scores from c on if they have equally many. */
  ghost predicate SameAbove(some: seq<int>, all: seq<int>, c: int)
  {
    |AtLeast(some, c)| == |AtLeast(all, c)| ==> AtLeast(some, c) == AtLeast(all, c)
  }

  /** The k largest of both bags are the same, a the least of them. */
  ghost predicate SameFront(some: seq<int>, all: seq<int>, k: nat, a: int)
  {
    && 0 < k <= |SortDesc(some)| && k <= |SortDesc(all)|
    && SortDesc(some)[..k] == SortDesc(all)[..k] && SortDesc(all)[k - 1] == a
  }

  /** How many scores reach c can be read off their sorted order. */
  lemma SortedAbove(s: seq<int>, c: int)
    ensures |AtLeast(s, c)| == |PrefixAtLeast(SortDesc(s), c)|
  {
    SortDescFacts(AtLeast(s, c));
    SortAtLeast(s, c);
  }

  /** Rearranging entries does not change how many of them reach c. */
  lemma PermutedAbove(a: seq<ScoreEntry>, b: seq<ScoreEntry>, c: int)
    requires multiset(a) == multiset(b)
    ensures |AtLeast(Scores(a), c)| == |AtLeast(Scores(b), c)|
  {
    SortPermuted(a, b);
    SortedAbove(Scores(a), c);
    SortedAbove(Scores(b), c);
  }

  lemma FrontCounts(some: seq<int>, all: seq<int>, k: nat, a: int)
    requires SameFront(some, all, k, a)
    ensures |AtLeast(some, a + 1)| == |AtLeast(all, a + 1)| && |AtLeast(some, a)| >= k
  {
    SortDescFacts(some);
    SortDescFacts(all);
    FrontReaches(SortDesc(some), SortDesc(all), k, a);
    FrontAbove(SortDesc(some), SortDesc(all), k, a);
    SortedAbove(some, a + 1);
    SortedAbove(all, a + 1);
    SortedAbove(some, a);
  }

  lemma FrontFromCounts(some: seq<int>, all: seq<int>, k: nat, a: int)
    requires 0 < k <= |SortDesc(all)| && SortDesc(all)[k - 1] == a
    requires AtLeast(some, a + 1) == AtLeast(all, a + 1) && |AtLeast(some, a)| >= k
    ensures SameFront(some, all, k, a)
  {
    SortDescFacts(some);
    SortDescFacts(all);
    SortedAbove(some, a);
    SortAtLeast(some, a + 1);
    SortAtLeast(all, a + 1);
    FrontDetermined(SortDesc(some), SortDesc(all), k, a);
  }

  /** The prefix at or above c reaches beyond position k exactly when the entry there does. */
  lemma PrefixReaches(s: seq<int>, c: int, k: nat)
    requires Descending(s) && k < |s|
    ensures |PrefixAtLeast(s, c)| > k <==> s[k] >= c
  {
    PrefixReach(s, c);
    var m := |PrefixAtLeast(s, c)|;
    if m <= k {
      assert s[m] >= s[k];
    }
  }

  lemma PrefixLength(s: seq<int>, c: int, m: nat)
    requires Descending(s) && m <= |s| && (m == |s| || s[m] < c) && (m == 0 || s[m - 1] >= c)
    ensures |PrefixAtLeast(s, c)| == m
  {
    if m < |s| {
      PrefixReaches(s, c, m);
    }
    if m > 0 {
      PrefixReaches(s, c, m - 1);
    }
  }

  lemma FrontReaches(p: seq<int>, q: seq<int>, k: nat, a: int)
    requires Descending(p) && 0 < k <= |q| && q[k - 1] == a && k <= |p| && p[..k] == q[..k]
    ensures |PrefixAtLeast(p, a)| >= k
  {
    SameAt(p, q, k, k - 1);
    PrefixReaches(p, a, k - 1);
  }

  lemma FrontAbove(p: seq<int>, q: seq<int>, k: nat, a: int)
    requires Descending(p) && Descending(q) && 0 < k <= |q| && q[k - 1] == a && k <= |p| && p[..k] == q[..k]
    ensures |PrefixAtLeast(p, a + 1)| == |PrefixAtLeast(q, a + 1)|
  {
    var above := AboveLast(q, k, a);
    SameAt(p, q, k, above);
    if above > 0 {
      SameAt(p, q, k, above - 1);
    }
    SameLength(p, q, a + 1, above);
  }

  lemma AboveLast(q: seq<int>, k: nat, a: int) returns (above: nat)
    requires Descending(q) && 0 < k <= |q| && q[k - 1] == a
    ensures above == |PrefixAtLeast(q, a + 1)| < k
  {
    above := |PrefixAtLeast(q, a + 1)|;
    PrefixReaches(q, a + 1, k - 1);
  }

  lemma SameLength(p: seq<int>, q: seq<int>, c: int, m: nat)
    requires Descending(p) && Descending(q) && m < |p| && m < |q| && p[m] == q[m] && (m > 0 ==> p[m - 1] == q[m - 1])
    requires m == |PrefixAtLeast(q, c)|
    ensures |PrefixAtLeast(p, c)| == m
  {
    PrefixReaches(q, c, m);
    if m > 0 {
      PrefixReaches(q, c, m - 1);
    }
    PrefixLength(p, c, m);
  }

  lemma SameAt(p: seq<int>, q: seq<int>, k: nat, i: nat)
    requires i < k <= |p| && k <= |q| && p[..k] == q[..k]
    ensures p[i] == q[i]
  {
    assert p[..k][i] == q[..k][i];
  }

  lemma FrontDetermined(p: seq<int>, q: seq<int>, k: nat, a: int)
    requires Descending(p) && Descending(q) && 0 < k <= |q| && q[k - 1] == a
    requires PrefixAtLeast(p, a + 1) == PrefixAtLeast(q, a + 1) && |PrefixAtLeast(p, a)| >= k
    ensures k <= |p| && p[..k] == q[..k]
  {
    forall i | 0 <= i < k ensures p[i] == q[i] {
      FrontAt(p, q, k, a, i);
    }
  }

  lemma FrontAt(p: seq<int>, q: seq<int>, k: nat, a: int, i: nat)
    requires Descending(p) && Descending(q) && i < k <= |q| && k <= |p| && q[k - 1] == a
    requires PrefixAtLeast(p, a + 1) == PrefixAtLeast(q, a + 1) && |PrefixAtLeast(p, a)| >= k
    ensures p[i] == q[i]
  {
    PrefixReaches(p, a, i);
    PrefixReaches(p, a + 1, i);
    PrefixReaches(q, a + 1, i);
    PrefixReaches(q, a, i);
    PrefixReaches(q, a, k - 1);
    var above := PrefixAtLeast(q, a + 1);
    if i < |above| {
      assert p[i] == above[i] && q[i] == above[i];
    }
  }

  lemma SameSortedScores(some: seq<ScoreEntry>, all: seq<ScoreEntry>, c: int)
    requires SortDesc(Scores(some)) == SortDesc(AtLeast(Scores(all), c))
    ensures |some| == |AtLeast(Scores(all), c)| && forall e :: e in some ==> e.score >= c
  {
    SortDescFacts(Scores(some));
    var kept := AtLeast(Scores(all), c);
    AtLeastReach(Scores(all), c);
    SortDescFacts(kept);
    assert multiset(Scores(some)) == multiset(kept);
    SameBagSameLength(Scores(some), kept);
    forall e | e in some ensures e.score >= c {
      var i :| 0 <= i < |some| && some[i] == e;
      assert Scores(some)[i] in multiset(Scores(some));
      assert e.score in kept;
    }
  }

  /** A list that holds every candidate shows all their scores in order. */
  lemma WholeList(top: seq<ScoreEntry>, all: seq<ScoreEntry>)
    requires TopEntries(top, all, TOP_K) && |all| <= TOP_K
    ensures Scores(top) == SortDesc(Scores(all))
  {
    TopScores(top, all, TOP_K);
    assert SortDesc(Scores(all))[..|top|] == SortDesc(Scores(all));
  }
}
