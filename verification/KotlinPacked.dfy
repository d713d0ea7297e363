/** The Kotlin ranking: score and id packed into one signed word, smallest word first. */
module KotlinPacked {
  import opened Common
  import opened SeqFacts
  import opened Ranking
  import opened Quickselect
  import opened Selection
  import opened GoState
  import opened CriticalLaw

  /** Upper half the 32-bit negated score, lower half the id's bits, read as a signed 64-bit word. */
  function Pack(e: ScoreEntry): int { Wrap32(-e.score) * TWO_32 + e.id % TWO_32 }

  /** The low half of a word, as a signed 32-bit id. */
  function Unpack(word: int): int { Wrap32(word % TWO_32) }

  predicate Int32(x: int) { INT32_MIN <= x < -INT32_MIN }

  /** What the engine packs: a 32-bit score and a non-negative id. */
  predicate Packable(e: ScoreEntry) { Int32(e.score) && 0 <= e.id < -INT32_MIN }

  /** Higher score first, then smaller id. */
  predicate Before(a: ScoreEntry, b: ScoreEntry)
  {
    a.score > b.score || (a.score == b.score && a.id < b.id)
  }

  lemma LowHalf(high: int, low: int)
    requires 0 <= low < TWO_32
    ensures (high * TWO_32 + low) % TWO_32 == low
  {
  }

  lemma UnpackRecoversID(e: ScoreEntry)
    requires Packable(e)
    ensures Unpack(Pack(e)) == e.id
    ensures -0x8000_0000_0000_0000 <= Pack(e) < 0x8000_0000_0000_0000
  {
    LowHalf(Wrap32(-e.score), e.id);
  }

  /**
   * Comparing words is comparing by score descending then id ascending, exactly unless one of the
   * two scores, but not the other, is the least 32-bit integer, whose negation wraps to itself.
   */
  lemma PackedOrder(a: ScoreEntry, b: ScoreEntry)
    requires Packable(a) && Packable(b)
    ensures (Pack(a) < Pack(b) <==> Before(a, b)) <==> (a.score == INT32_MIN <==> b.score == INT32_MIN)
  {
  }

  ghost predicate AllPackable(s: seq<ScoreEntry>) { forall e :: e in s ==> Packable(e) }

  ghost predicate AllRankable(s: seq<ScoreEntry>) { forall e :: e in s ==> Packable(e) && e.score != INT32_MIN }

  /** No score of the slice is the least 32-bit integer, or every one is. */
  ghost predicate NegatesAlike(s: seq<ScoreEntry>)
  {
    (forall e :: e in s ==> e.score != INT32_MIN) || (forall e :: e in s ==> e.score == INT32_MIN)
  }

  /** Entries of one order carry one score. */
  ghost predicate ScoredByID(s: seq<ScoreEntry>)
  {
    forall a, b :: a in s && b in s && a.id == b.id ==> a.score == b.score
  }

  // ---- The list as a function of the slice ----

  /** Larger ranks first. */
  function Rank(word: int): int { -word }

  function Ranks(s: seq<ScoreEntry>): (r: seq<int>)
    ensures |r| == |s| && forall i :: 0 <= i < |s| ==> r[i] == Rank(Pack(s[i]))
  {
    seq(|s|, i requires 0 <= i < |s| => Rank(Pack(s[i])))
  }

  function Words(s: seq<ScoreEntry>): (r: seq<int>)
    ensures |r| == |s| && forall i :: 0 <= i < |s| ==> r[i] == Pack(s[i])
  {
    seq(|s|, i requires 0 <= i < |s| => Pack(s[i]))
  }

  function Negated(s: seq<int>): (r: seq<int>)
    ensures |r| == |s| && forall i :: 0 <= i < |s| ==> r[i] == Rank(s[i])
  {
    seq(|s|, i requires 0 <= i < |s| => Rank(s[i]))
  }

  function UnpackedRanks(ranks: seq<int>): (r: seq<int>)
    ensures |r| == |ranks| && forall i :: 0 <= i < |ranks| ==> r[i] == Unpack(Rank(ranks[i]))
  {
    seq(|ranks|, i requires 0 <= i < |ranks| => Unpack(Rank(ranks[i])))
  }

  /** The ids of the smallest words, in ascending word order. */
  function FirstWords(words: seq<int>): (ids: seq<int>)
  {
    var sorted := SortDesc(Negated(words));
    UnpackedRanks(sorted[..Min(|sorted|, TOP_K)])
  }

  // ---- Lexicographic meaning ----

  function InsertBefore(x: ScoreEntry, s: seq<ScoreEntry>): seq<ScoreEntry>
  {
    if s == [] || !Before(s[0], x) then [x] + s else [s[0]] + InsertBefore(x, s[1..])
  }

  /** A slice in (score descending, id ascending) order. */
  function InOrder(s: seq<ScoreEntry>): seq<ScoreEntry>
  {
    if s == [] then [] else InsertBefore(s[0], InOrder(s[1..]))
  }

  /** The first TOP_K entries in (score descending, id ascending) order. */
  function FirstInOrder(s: seq<ScoreEntry>): seq<ScoreEntry>
  {
    InOrder(s)[..Min(|InOrder(s)|, TOP_K)]
  }

  ghost predicate Ordered(s: seq<ScoreEntry>) { forall i, j :: 0 <= i < j < |s| ==> !Before(s[j], s[i]) }

  lemma {:induction false} InsertBagged(x: ScoreEntry, s: seq<ScoreEntry>)
    ensures multiset(InsertBefore(x, s)) == multiset(s) + multiset{x}
  {
    if s == [] {
    } else {
      ConsSplit(s);
      if Before(s[0], x) {
        InsertBagged(x, s[1..]);
      }
    }
  }

  lemma {:induction false} InsertOrdered(x: ScoreEntry, s: seq<ScoreEntry>)
    requires Ordered(s)
    ensures Ordered(InsertBefore(x, s))
  {
    if s == [] || !Before(s[0], x) {
    } else {
      InsertOrdered(x, s[1..]);
      InsertBagged(x, s[1..]);
      var t := InsertBefore(x, s[1..]);
      forall j | 0 <= j < |t| ensures !Before(t[j], s[0]) {
        assert t[j] in multiset(t);
      }
    }
  }

  lemma {:induction false} InOrderFacts(s: seq<ScoreEntry>)
    ensures Ordered(InOrder(s)) && multiset(InOrder(s)) == multiset(s)
  {
    if s == [] {
    } else {
      ConsSplit(s);
      InOrderFacts(s[1..]);
      InsertOrdered(s[0], InOrder(s[1..]));
      InsertBagged(s[0], InOrder(s[1..]));
    }
  }

  lemma RanksCons(x: ScoreEntry, s: seq<ScoreEntry>)
    ensures Ranks([x] + s) == [Rank(Pack(x))] + Ranks(s)
    ensures s != [] ==> Ranks(s)[0] == Rank(Pack(s[0])) && Ranks(s)[1..] == Ranks(s[1..])
  {
  }

  lemma {:induction false} InsertRanks(x: ScoreEntry, s: seq<ScoreEntry>)
    requires Packable(x) && forall e :: e in s ==> Packable(e) && (e.score == INT32_MIN <==> x.score == INT32_MIN)
    ensures Ranks(InsertBefore(x, s)) == Insert(Rank(Pack(x)), Ranks(s))
  {
    RanksCons(x, s);
    if s == [] {
    } else {
      assert s[0] in s;
      PackedOrder(s[0], x);
      if Before(s[0], x) {
        InsertRanks(x, s[1..]);
        RanksCons(s[0], InsertBefore(x, s[1..]));
      }
    }
  }

  lemma {:induction false} RanksInOrder(s: seq<ScoreEntry>)
    requires AllPackable(s) && NegatesAlike(s)
    ensures Ranks(InOrder(s)) == SortDesc(Ranks(s))
  {
    if s == [] {
    } else {
      RanksInOrder(s[1..]);
      assert Ranks(s)[1..] == Ranks(s[1..]);
      var t := InOrder(s[1..]);
      InOrderFacts(s[1..]);
      forall e | e in t ensures e in s {
        assert e in multiset(t);
      }
      InsertRanks(s[0], t);
    }
  }

  /** A published list is exactly the ids of the first entries in (score descending, id ascending) order. */
  lemma ListIsFirstInOrder(s: seq<ScoreEntry>)
    requires AllPackable(s) && NegatesAlike(s)
    ensures FirstWords(Words(s)) == Ids(FirstInOrder(s))
  {
    var o, first := InOrder(s), FirstInOrder(s);
    InOrderFacts(s);
    RanksInOrder(s);
    assert Negated(Words(s)) == Ranks(s);
    assert Ranks(o)[..|first|] == Ranks(first);
    forall e | e in first ensures e in s {
      assert e in multiset(o);
    }
    UnpackRanks(first);
  }

  /**
   * The order of a published list, exactly: it is (score descending, id ascending) if and only if the
   * slice has no score equal to the least 32-bit integer, or no other.
   */
  lemma ListInOrderExactly(s: seq<ScoreEntry>)
    requires AllPackable(s) && ScoredByID(s)
    ensures FirstWords(Words(s)) == Ids(FirstInOrder(s)) <==> NegatesAlike(s)
  {
    if NegatesAlike(s) {
      ListIsFirstInOrder(s);
    } else {
      InOrderFacts(s);
      var x := LeastScoreLeads(s);
      OtherScoreFirst(s);
      var y := InOrder(s)[0];
      assert y in multiset(InOrder(s));
      assert Ids(FirstInOrder(s))[0] == y.id;
    }
  }

  /** The word of a least score, which negates to itself, comes before every other word. */
  lemma LeastScoreLeads(s: seq<ScoreEntry>) returns (x: ScoreEntry)
    requires AllPackable(s) && exists j :: 0 <= j < |s| && s[j].score == INT32_MIN
    ensures x in s && x.score == INT32_MIN
    ensures |FirstWords(Words(s))| > 0 && FirstWords(Words(s))[0] == x.id
  {
    var j :| 0 <= j < |s| && s[j].score == INT32_MIN;
    var ranks := Ranks(s);
    assert Negated(Words(s)) == ranks;
    var i := LargestLeads(ranks, j);
    x := s[i];
    assert s[j] in s && x in s;
    LeastRanksFirst(x, s[j]);
    UnpackRecoversID(x);
    assert FirstWords(Words(s))[0] == Unpack(Rank(ranks[i]));
  }

  lemma LeastRanksFirst(a: ScoreEntry, b: ScoreEntry)
    requires Packable(a) && Packable(b) && b.score == INT32_MIN && Rank(Pack(a)) >= Rank(Pack(b))
    ensures a.score == INT32_MIN
  {
  }

  lemma LargestLeads(ranks: seq<int>, j: nat) returns (i: nat)
    requires j < |ranks|
    ensures |SortDesc(ranks)| == |ranks| && i < |ranks| && ranks[i] == SortDesc(ranks)[0] >= ranks[j]
  {
    var sorted := SortDesc(ranks);
    SortDescFacts(ranks);
    assert sorted[0] in multiset(ranks);
    i :| 0 <= i < |ranks| && ranks[i] == sorted[0];
    assert ranks[j] in multiset(sorted);
    var m :| 0 <= m < |sorted| && sorted[m] == ranks[j];
  }

  lemma OtherScoreFirst(s: seq<ScoreEntry>)
    requires AllPackable(s) && exists e :: e in s && e.score != INT32_MIN
    ensures |InOrder(s)| > 0 && InOrder(s)[0].score != INT32_MIN
  {
    var other, o := (var e :| e in s && e.score != INT32_MIN; e), InOrder(s);
    InOrderFacts(s);
    assert other in multiset(o);
    var j :| 0 <= j < |o| && o[j] == other;
    assert o[0] in multiset(s);
    if j > 0 {
      assert !Before(o[j], o[0]);
    }
  }

  lemma UnpackRanks(s: seq<ScoreEntry>)
    requires AllPackable(s)
    ensures UnpackedRanks(Ranks(s)) == Ids(s)
  {
    forall i | 0 <= i < |s| ensures UnpackedRanks(Ranks(s))[i] == Ids(s)[i] {
      assert s[i] in s;
      UnpackRecoversID(s[i]);
    }
  }

  /** The order of the eligible list does not matter. */
  lemma ListIgnoresInputOrder(words: seq<int>, words': seq<int>)
    requires multiset(words) == multiset(words')
    ensures FirstWords(words) == FirstWords(words')
  {
    PermutedNegated(words, words');
    SortDescFacts(Negated(words));
    SortIsCanonical(SortDesc(Negated(words)), Negated(words'));
  }

  lemma PermutedNegated(a: seq<int>, b: seq<int>)
    requires multiset(a) == multiset(b)
    ensures multiset(Negated(a)) == multiset(Negated(b))
  {
    MappedPermuted(a, b, Rank);
    assert Negated(a) == Mapped(a, Rank) && Negated(b) == Mapped(b, Rank);
  }

  /** Rearranged slices publish the same list. */
  lemma PermutedWords(a: seq<ScoreEntry>, b: seq<ScoreEntry>)
    requires multiset(a) == multiset(b)
    ensures FirstWords(Words(a)) == FirstWords(Words(b))
  {
    MappedPermuted(a, b, Pack);
    assert Words(a) == Mapped(a, Pack) && Words(b) == Mapped(b, Pack);
    ListIgnoresInputOrder(Words(a), Words(b));
  }

  /** A list that holds every entry holds each id as often as the slice does. */
  lemma WholeListBag(s: seq<ScoreEntry>)
    requires AllPackable(s) && |s| <= TOP_K
    ensures multiset(FirstWords(Words(s))) == multiset(Ids(s))
  {
    var ranks, f := Ranks(s), (r: int) => Unpack(Rank(r));
    assert Negated(Words(s)) == ranks;
    SortDescFacts(ranks);
    assert SortDesc(ranks)[..|ranks|] == SortDesc(ranks);
    MappedPermuted(SortDesc(ranks), ranks, f);
    assert UnpackedRanks(SortDesc(ranks)) == Mapped(SortDesc(ranks), f) && UnpackedRanks(ranks) == Mapped(ranks, f);
    UnpackRanks(s);
  }

  // ---- The critical list ----

  /** Ranks at or above this belong to scores of at least -1800. */
  const CRITICAL_RANK: int := -CRITICAL_CUTOFF * TWO_32 + INT32_MIN + 1

  lemma RankCut(e: ScoreEntry)
    requires Packable(e) && e.score != INT32_MIN
    ensures Rank(Pack(e)) >= CRITICAL_RANK <==> e.score >= -CRITICAL_CUTOFF
  {
  }

  lemma RanksSnoc(s: seq<ScoreEntry>, e: ScoreEntry)
    ensures Ranks(s + [e]) == Ranks(s) + [Rank(Pack(e))]
  {
  }

  /** One more deadline entry joins the critical ranks when its score is at or above the cut. */
  lemma CriticalRanksNext(pbt: seq<ScoreEntry>, crit: seq<ScoreEntry>, e: ScoreEntry)
    requires Packable(e) && e.score != INT32_MIN
    requires Ranks(crit) == AtLeast(Ranks(pbt), CRITICAL_RANK)
    ensures Ranks(if e.score >= -CRITICAL_CUTOFF then crit + [e] else crit) == AtLeast(Ranks(pbt + [e]), CRITICAL_RANK)
  {
    RanksSnoc(pbt, e);
    RanksSnoc(crit, e);
    AtLeastAppend(Ranks(pbt), Rank(Pack(e)), CRITICAL_RANK);
    RankCut(e);
  }

  lemma {:induction false} CriticalRanks(meta: seq<OrderMeta>, row: seq<int>, eligible: seq<nat>, now: int)
    requires |meta| == |row| == NUM_ORDERS
    requires CutsAgree(meta, eligible, now)
    requires AllRankable(Entries(meta, row, eligible, PBT, now))
    ensures Ranks(Entries(meta, row, eligible, CRITICAL, now)) ==
            AtLeast(Ranks(Entries(meta, row, eligible, PBT, now)), CRITICAL_RANK)
  {
    if eligible == [] {
    } else {
      var front, o := eligible[..|eligible| - 1], eligible[|eligible| - 1];
      var crit, pbt := Entries(meta, row, front, CRITICAL, now), Entries(meta, row, front, PBT, now);
      if Eligible(meta, o, PBT, now) {
        var e := ScoreEntry(RankKey(row[o], meta[o].pbtDeadline, PBT, now), o);
        assert forall x :: x in pbt + [e] <==> x in pbt || x == e;
        CriticalRanks(meta, row, front, now);
        CriticalRanksNext(pbt, crit, e);
      } else {
        CriticalRanks(meta, row, front, now);
      }
    }
  }

  lemma {:induction false} DeadlinesPackable(meta: seq<OrderMeta>, row: seq<int>, eligible: seq<nat>, now: int)
    requires |meta| == |row| == NUM_ORDERS
    ensures AllPackable(Entries(meta, row, eligible, PBT, now))
    ensures forall e :: e in Entries(meta, row, eligible, CRITICAL, now) ==> e in Entries(meta, row, eligible, PBT, now)
  {
    if eligible == [] {
    } else {
      DeadlinesPackable(meta, row, eligible[..|eligible| - 1], now);
    }
  }

  /**
   * In Kotlin the critical list is, id by id, a prefix of the pair's deadline list, when every candidate's
   * age keeps its side of the cut and the deadline list is in order.
   */
  lemma CriticalListIsPrefix(meta: seq<OrderMeta>, row: seq<int>, eligible: seq<nat>, now: int)
    requires |meta| == |row| == NUM_ORDERS
    requires CutsAgree(meta, eligible, now)
    requires NegatesAlike(Entries(meta, row, eligible, PBT, now))
    ensures var pbt := Entries(meta, row, eligible, PBT, now);
            var crit := Entries(meta, row, eligible, CRITICAL, now);
            && FirstWords(Words(crit)) <= FirstWords(Words(pbt))
            && |FirstWords(Words(crit))| == Min(|crit|, TOP_K)
  {
    var pbt, crit := Entries(meta, row, eligible, PBT, now), Entries(meta, row, eligible, CRITICAL, now);
    DeadlinesPackable(meta, row, eligible, now);
    if AllRankable(pbt) {
      CriticalRanks(meta, row, eligible, now);
      RankedPrefix(pbt, crit);
    } else {
      CriticalEntries(meta, row, eligible, now);
      AtLeastNone(Scores(pbt), -CRITICAL_CUTOFF);
      assert |Scores(crit)| == 0;
      assert Words(crit) == [];
    }
  }

  lemma RankedPrefix(pbt: seq<ScoreEntry>, crit: seq<ScoreEntry>)
    requires Ranks(crit) == AtLeast(Ranks(pbt), CRITICAL_RANK)
    ensures FirstWords(Words(crit)) <= FirstWords(Words(pbt))
    ensures |FirstWords(Words(crit))| == Min(|crit|, TOP_K)
  {
    assert Negated(Words(pbt)) == Ranks(pbt) && Negated(Words(crit)) == Ranks(crit);
    SortAtLeast(Ranks(pbt), CRITICAL_RANK);
    SortDescFacts(Ranks(crit));
    PrefixTruncated(SortDesc(Ranks(pbt)), CRITICAL_RANK, TOP_K);
  }

  // ---- A list in order is a top list ----

  lemma FirstInOrderIsTop(s: seq<ScoreEntry>)
    ensures TopEntries(FirstInOrder(s), s, TOP_K)
  {
    var o, top := InOrder(s), FirstInOrder(s);
    var rest := o[|top|..];
    InOrderFacts(s);
    SameBagSameLength(o, s);
    assert o == top + rest;
    forall i, j | 0 <= i < j < |top| ensures Scores(top)[i] >= Scores(top)[j] {
      assert !Before(o[j], o[i]);
    }
    forall x, y | x in top && y in multiset(s) - multiset(top) ensures x.score >= y.score {
      var i :| 0 <= i < |top| && top[i] == x;
      assert y in multiset(rest);
      var j :| 0 <= j < |rest| && rest[j] == y;
      assert !Before(o[|top| + j], o[i]);
    }
  }

  // ---- The routine itself ----

  lemma FrontFirst(e: seq<int>, k: int, n: int)
    requires 0 <= k <= n <= |e| && SplitAt(e, Rank, k, n) && SortedBy(e, Rank, k)
    ensures Descending(Negated(e[..k]))
    ensures forall x, y :: x in Negated(e[..k]) && y in Negated(e[k..n]) ==> x >= y
  {
    var front, rest := Negated(e[..k]), Negated(e[k..n]);
    forall i, j | 0 <= i < j < k ensures front[i] >= front[j] {
      assert Rank(e[i]) >= Rank(e[j]);
    }
    forall x, y | x in front && y in rest ensures x >= y {
      var i :| 0 <= i < |front| && front[i] == x;
      var j :| 0 <= j < |rest| && rest[j] == y;
      assert Rank(e[i]) >= Rank(e[k + j]);
    }
  }

  /** Sorting and splitting by word leaves the smallest words in front, in order. */
  lemma FrontIsFirst(was: seq<int>, e: seq<int>, k: int, n: nat)
    requires n <= |was| && k == Min(n, TOP_K)
    requires Rearranged(was, e, 0, n - 1) && SplitAt(e, Rank, k, n) && SortedBy(e, Rank, k)
    ensures UnpackedRanks(Negated(e[..k])) == FirstWords(was[..n])
  {
    var front, rest := Negated(e[..k]), Negated(e[k..n]);
    assert was[0..n] == was[..n] && e[0..n] == e[..n];
    ListIgnoresInputOrder(was[..n], e[..n]);
    SameBagSameLength(was[..n], e[..n]);
    assert Negated(e[..n]) == front + rest;
    FrontFirst(e, k, n);
    DescendingThenSorted(front, rest);
    SortDescFacts(Negated(e[..n]));
    SortDescFacts(rest);
    assert SortDesc(Negated(e[..n]))[..k] == front;
  }

  /** The words in ascending order, which is what a library sort of words makes of them. */
  function Ascending(words: seq<int>): seq<int> { Negated(SortDesc(Negated(words))) }

  lemma AscendingSorts()
    ensures Sorts(Ascending, Rank)
  {
    forall s
      ensures |Ascending(s)| == |s| && multiset(Ascending(s)) == multiset(s) && SortedBy(Ascending(s), Rank, |s|)
    {
      SortDescFacts(Negated(s));
      PermutedNegated(SortDesc(Negated(s)), Negated(s));
      assert Negated(Negated(s)) == s;
    }
  }

  /** A slice in which no id repeats packs into pairwise distinct words. */
  lemma DistinctWords(s: seq<ScoreEntry>)
    requires forall i, j :: 0 <= i < j < |s| ==> s[i].id != s[j].id
    requires forall e :: e in s ==> Packable(e)
    ensures DistinctKeys(Words(s), Rank, |s|)
  {
    forall i, j | 0 <= i < j < |s| ensures Rank(Words(s)[i]) != Rank(Words(s)[j]) {
      assert s[i] in s && s[j] in s;
      UnpackRecoversID(s[i]);
      UnpackRecoversID(s[j]);
    }
  }

  /**
   * packTopKAndCopy: selects and sorts in place, then writes the unpacked ids into dst at dstOff.
   * scans counts the comparisons of the selection.
   */
  method PackTopKAndCopy(dst: array<int>, dstOff: nat, packed: array<int>, len: nat, sort: seq<int> -> seq<int>)
    returns (ghost scans: nat)
    requires len <= packed.Length && dstOff + TOP_K <= dst.Length && dst != packed && Sorts(sort, Rank)
    modifies dst, packed
    ensures |FirstWords(old(packed[..len]))| <= TOP_K
    ensures dst[..] == Written(old(dst[..]), dstOff, FirstWords(old(packed[..len])))
    ensures scans == TopK(old(packed[..]), Rank, len, TOP_K).1
    ensures WithinBudget(old(packed[..]), Rank, len, TOP_K, scans)
  {
    var k := Min(len, TOP_K);
    ghost var was := packed[..];
    SelectionBudget(was, Rank, sort, len, TOP_K);
    SortDescFacts(Negated(packed[..len]));
    scans := 0;
    if k == 0 {
      assert dst[..] == Written(old(dst[..]), dstOff, []);
      return;
    }
    if len > k {
      scans := QuickselectTopK(packed, Rank, len, k);
    }
    SortedWordsAreFirst(was, packed[..], sort, len, k);
    SortPrefix(packed, Rank, sort, k);
    UnpackInto(dst, dstOff, packed, k);
  }

  lemma SortedWordsAreFirst(was: seq<int>, s: seq<int>, sort: seq<int> -> seq<int>, len: nat, k: nat)
    requires len <= |was| && k == Min(len, TOP_K) && Rearranged(was, s, 0, len - 1) && SplitAt(s, Rank, k, len)
    requires Sorts(sort, Rank)
    ensures var r := FrontSorted(s, sort, k);
            && |r| == |was| && |FirstWords(was[..len])| <= TOP_K
            && UnpackedRanks(Negated(r[..k])) == FirstWords(was[..len])
  {
    SplitThenSorted(was, s, Rank, sort, len, k);
    FrontIsFirst(was, FrontSorted(s, sort, k), k, len);
  }

  method UnpackInto(dst: array<int>, dstOff: nat, packed: array<int>, k: nat)
    requires k <= packed.Length && dstOff + k <= dst.Length && dst != packed
    modifies dst
    ensures dst[..] == Written(old(dst[..]), dstOff, UnpackedRanks(Negated(packed[..k])))
  {
    ghost var was := dst[..];
    for i := 0 to k
      invariant dst[..] == Written(was, dstOff, UnpackedRanks(Negated(packed[..i])))
    {
      WrittenNext(was, dstOff, UnpackedRanks(Negated(packed[..i])), Unpack(packed[i]));
      assert UnpackedRanks(Negated(packed[..i + 1])) == UnpackedRanks(Negated(packed[..i])) + [Unpack(packed[i])];
      dst[dstOff + i] := Unpack(packed[i]);
    }
  }
}
