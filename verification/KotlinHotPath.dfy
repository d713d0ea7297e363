/** The Kotlin hot path in its own form: frozen maps copied list by list, scratch words in fixed arrays. */
module KotlinHotPath {
  import opened Common
  import opened Ranking
  import opened Quickselect
  import opened Selection
  import opened Index
  import opened GoIndex
  import opened GoState
  import opened Headline
  import opened KotlinPacked

  // ---- Freezing the index ----

  method FreezeList(list: seq<nat>) returns (arr: seq<nat>)
    ensures arr == list
  {
    arr := [];
    for i := 0 to |list|
      invariant arr == list[..i]
    {
      arr := arr + [list[i]];
    }
  }

  /** Copies a map of lists key by key, in whatever order the keys come. */
  method FreezeLists(src: map<nat, seq<nat>>) returns (snap: map<nat, seq<nat>>)
    ensures snap == src
  {
    snap := map[];
    var left: set<nat> := src.Keys;
    while left != {}
      invariant left <= src.Keys && snap.Keys == src.Keys - left
      invariant forall k :: k in snap ==> snap[k] == src[k]
      decreases left
    {
      var k: nat :| k in left;
      var arr := FreezeList(src[k]);
      snap := snap[k := arr];
      left := left - {k};
    }
    assert snap.Keys == src.Keys;
  }

  /** The live maps with the copies the compute phases read. */
  class FrozenIndexes {
    const live: InvertedIndexes
    var binTagFrozen: map<nat, seq<nat>>
    var tpidFrozen: map<nat, seq<nat>>

    constructor ()
      ensures fresh(live) && live.Valid()
      ensures live.TPIDs() == EMPTY_HALF && live.BinTags() == EMPTY_HALF
      ensures binTagFrozen == map[] && tpidFrozen == map[]
    {
      live := new InvertedIndexes();
      binTagFrozen, tpidFrozen := map[], map[];
    }

    method Materialize()
      modifies this`binTagFrozen
      ensures binTagFrozen == live.BinTags().fwd
    {
      binTagFrozen := FreezeLists(live.BinTagToOrders);
    }

    method MaterializeTpid()
      modifies this`tpidFrozen
      ensures tpidFrozen == live.TPIDs().fwd
    {
      tpidFrozen := FreezeLists(live.TPIDToOrders);
    }
  }

  // ---- Scratch arrays are large enough ----

  lemma {:induction false} BelowBound(ids: seq<int>, n: nat)
    requires NoRepeats(ids) && forall x :: x in ids ==> 0 <= x < n
    ensures |ids| <= n
    decreases n
  {
    if ids == [] {
    } else {
      assert ids[0] in ids;
      if n - 1 in ids {
        var i :| 0 <= i < |ids| && ids[i] == n - 1;
        var rest := ids[..i] + ids[i + 1..];
        forall j | 0 <= j < |rest| ensures 0 <= rest[j] < n - 1 {
          var j' := if j < i then j else j + 1;
          assert rest[j] == ids[j'] && ids[j'] in ids && ids[j'] != ids[i];
        }
        BelowBound(rest, n - 1);
      } else {
        BelowBound(ids, n - 1);
      }
    }
  }

  lemma {:induction false} EntriesFollowList(meta: seq<OrderMeta>, row: seq<int>, eligible: seq<nat>, table: nat,
                                             now: int)
    requires |meta| == |row| == NUM_ORDERS && NoRepeats(eligible)
    ensures var ids := Ids(Entries(meta, row, eligible, table, now));
            NoRepeats(ids) && forall x :: x in ids ==> x in eligible && 0 <= x < NUM_ORDERS
  {
    if eligible == [] {
    } else {
      var front, o := eligible[..|eligible| - 1], eligible[|eligible| - 1];
      EntriesFollowList(meta, row, front, table, now);
      var e, e' := Entries(meta, row, front, table, now), Entries(meta, row, eligible, table, now);
      assert o !in front;
      if e' != e {
        assert Ids(e') == Ids(e) + [o];
      }
    }
  }

  /** With no order repeated in a list, no slice outgrows an array of NUM_ORDERS words. */
  lemma SliceFits(meta: seq<OrderMeta>, row: seq<int>, eligible: seq<nat>, table: nat, now: int)
    requires |meta| == |row| == NUM_ORDERS && NoRepeats(eligible)
    ensures |Entries(meta, row, eligible, table, now)| <= NUM_ORDERS
  {
    EntriesFollowList(meta, row, eligible, table, now);
    BelowBound(Ids(Entries(meta, row, eligible, table, now)), NUM_ORDERS);
  }

  // ---- One pair ----

  /** One table's scratch: a fixed array of words and how many of them are in use. */
  class WordList {
    const packed: array<int>
    var len: nat

    ghost predicate Valid() reads this { packed.Length == NUM_ORDERS && len <= NUM_ORDERS }

    ghost function Used(): seq<int> requires Valid() reads this, packed { packed[..len] }

    constructor ()
      ensures Valid() && fresh(packed) && Used() == []
    {
      packed := new int[NUM_ORDERS];
      len := 0;
    }

    method Put(word: int)
      requires Valid() && len < NUM_ORDERS
      modifies this, packed
      ensures Valid() && Used() == old(Used()) + [word]
    {
      packed[len] := word;
      len := len + 1;
    }
  }

  ghost predicate Apart(a: WordList, b: WordList) { a != b && a.packed != b.packed }

  /** The words of one table over the first i eligible orders. */
  ghost function WordsUpTo(meta: seq<OrderMeta>, row: seq<int>, eligible: seq<nat>, i: nat, table: nat,
                           now: int): seq<int>
    requires |meta| == |row| == NUM_ORDERS && i <= |eligible|
  {
    Words(Entries(meta, row, eligible[..i], table, now))
  }

  lemma WordsNext(meta: seq<OrderMeta>, row: seq<int>, eligible: seq<nat>, i: nat, table: nat, now: int)
    requires |meta| == |row| == NUM_ORDERS && i < |eligible|
    ensures var o := eligible[i];
            var before := WordsUpTo(meta, row, eligible, i, table, now);
            WordsUpTo(meta, row, eligible, i + 1, table, now) ==
            before + (if Eligible(meta, o, table, now)
                      then [Pack(ScoreEntry(RankKey(row[o], meta[o].pbtDeadline, table, now), o))] else [])
  {
    assert eligible[..i + 1][..i] == eligible[..i];
    var e, e' := Entries(meta, row, eligible[..i], table, now), Entries(meta, row, eligible[..i + 1], table, now);
    if e' != e {
      assert Words(e') == Words(e) + [Pack(e'[|e|])];
    }
  }

  /** The words one active order contributes to a table. */
  function Contributed(m: OrderMeta, score: int, oid: nat, table: nat, now: int): seq<int>
  {
    if Passes(m.requiredQty, m.pbtDeadline, table, now)
    then [Pack(ScoreEntry(RankKey(score, m.pbtDeadline, table, now), oid))] else []
  }

  /** A worker's scratch: one word list per table, reused from pair to pair. */
  class WorkerScratch {
    const h: WordList
    const l: WordList
    const pbt: WordList
    const crit: WordList

    ghost predicate Valid() reads h, l, pbt, crit
    {
      && h.Valid() && l.Valid() && pbt.Valid() && crit.Valid()
      && Apart(h, l) && Apart(h, pbt) && Apart(h, crit) && Apart(l, pbt) && Apart(l, crit) && Apart(pbt, crit)
    }

    ghost function Repr(): set<object> { {h, h.packed, l, l.packed, pbt, pbt.packed, crit, crit.packed} }

    constructor ()
      ensures Valid() && fresh(Repr())
    {
      h := new WordList();
      l := new WordList();
      pbt := new WordList();
      crit := new WordList();
    }

    method Reset()
      requires Valid()
      modifies h, l, pbt, crit
      ensures Valid() && h.Used() == l.Used() == pbt.Used() == crit.Used() == []
    {
      h.len, l.len, pbt.len, crit.len := 0, 0, 0, 0;
    }

    /** Packs one active order into the tables whose filter it passes. */
    method PutOrder(m: OrderMeta, score: int, oid: nat, nowSecs: int)
      requires Valid()
      requires h.len < NUM_ORDERS && l.len < NUM_ORDERS && pbt.len < NUM_ORDERS && crit.len < NUM_ORDERS
      modifies Repr()
      ensures Valid()
      ensures h.Used() == old(h.Used()) + Contributed(m, score, oid, HEURISTIC, nowSecs)
      ensures l.Used() == old(l.Used()) + Contributed(m, score, oid, LARGE, nowSecs)
      ensures pbt.Used() == old(pbt.Used()) + Contributed(m, score, oid, PBT, nowSecs)
      ensures crit.Used() == old(crit.Used()) + Contributed(m, score, oid, CRITICAL, nowSecs)
    {
      var hp := Pack(ScoreEntry(score, oid));
      h.Put(hp);
      if m.requiredQty >= LARGE_QTY {
        l.Put(hp);
      }
      var dl := m.pbtDeadline;
      if dl > 0 {
        var dp := Pack(ScoreEntry(Wrap32(nowSecs - dl), oid));
        pbt.Put(dp);
        if dl <= nowSecs + CRITICAL_CUTOFF {
          crit.Put(dp);
        }
      }
    }

    /** The words of every table are those of the first i eligible orders. */
    ghost predicate Holds(meta: seq<OrderMeta>, row: seq<int>, eligible: seq<nat>, i: nat, now: int)
      requires Valid() && |meta| == |row| == NUM_ORDERS && i <= |eligible|
      reads h, l, pbt, crit, h.packed, l.packed, pbt.packed, crit.packed
    {
      && h.Used() == WordsUpTo(meta, row, eligible, i, HEURISTIC, now)
      && l.Used() == WordsUpTo(meta, row, eligible, i, LARGE, now)
      && pbt.Used() == WordsUpTo(meta, row, eligible, i, PBT, now)
      && crit.Used() == WordsUpTo(meta, row, eligible, i, CRITICAL, now)
    }

    /**
     * The single pass over a pair's eligible orders. It fails, with the array index out of bounds, exactly
     * when more active entries are listed than an array holds.
     */
    method Fill(meta: seq<OrderMeta>, row: seq<int>, eligible: seq<nat>, nowSecs: int) returns (ok: bool)
      requires Valid() && |meta| == |row| == NUM_ORDERS
      modifies Repr()
      ensures Valid()
      ensures ok <==> Fits(meta, row, eligible, nowSecs)
      ensures ok ==> h.Used() == Words(Entries(meta, row, eligible, HEURISTIC, nowSecs))
      ensures ok ==> l.Used() == Words(Entries(meta, row, eligible, LARGE, nowSecs))
      ensures ok ==> pbt.Used() == Words(Entries(meta, row, eligible, PBT, nowSecs))
      ensures ok ==> crit.Used() == Words(Entries(meta, row, eligible, CRITICAL, nowSecs))
    {
      Reset();
      for i := 0 to |eligible|
        invariant Valid() && Holds(meta, row, eligible, i, nowSecs)
      {
        var oid := eligible[i];
        if oid < NUM_ORDERS && meta[oid].active && h.len == NUM_ORDERS {
          Overflows(meta, row, eligible, i, nowSecs);
          return false;
        }
        RoomForNext(meta, row, eligible, i, HEURISTIC, nowSecs);
        RoomForNext(meta, row, eligible, i, LARGE, nowSecs);
        RoomForNext(meta, row, eligible, i, PBT, nowSecs);
        RoomForNext(meta, row, eligible, i, CRITICAL, nowSecs);
        if oid < NUM_ORDERS && meta[oid].active {
          PutOrder(meta[oid], row[oid], oid, nowSecs);
        }
      }
      assert eligible[..|eligible|] == eligible;
      ok := true;
    }
  }

  /** The longest slice of a pair fits into a scratch array. */
  predicate Fits(meta: seq<OrderMeta>, row: seq<int>, eligible: seq<nat>, now: int)
    requires |meta| == |row| == NUM_ORDERS
  {
    |Entries(meta, row, eligible, HEURISTIC, now)| <= NUM_ORDERS
  }

  lemma {:induction false} EntriesGrow(meta: seq<OrderMeta>, row: seq<int>, eligible: seq<nat>, i: nat, table: nat,
                                       now: int)
    requires |meta| == |row| == NUM_ORDERS && i <= |eligible|
    ensures |Entries(meta, row, eligible[..i], table, now)| <= |Entries(meta, row, eligible, table, now)|
    decreases |eligible|
  {
    if i == |eligible| {
      assert eligible[..i] == eligible;
    } else {
      assert eligible[..|eligible| - 1][..i] == eligible[..i];
      EntriesGrow(meta, row, eligible[..|eligible| - 1], i, table, now);
    }
  }

  lemma Overflows(meta: seq<OrderMeta>, row: seq<int>, eligible: seq<nat>, i: nat, now: int)
    requires |meta| == |row| == NUM_ORDERS && i < |eligible| && eligible[i] < NUM_ORDERS && meta[eligible[i]].active
    requires |WordsUpTo(meta, row, eligible, i, HEURISTIC, now)| == NUM_ORDERS
    ensures !Fits(meta, row, eligible, now)
  {
    WordsNext(meta, row, eligible, i, HEURISTIC, now);
    EntriesGrow(meta, row, eligible, i + 1, HEURISTIC, now);
  }

  /** As long as the first slice has room so has every other, and adding an order extends the words as packed. */
  lemma RoomForNext(meta: seq<OrderMeta>, row: seq<int>, eligible: seq<nat>, i: nat, table: nat, now: int)
    requires |meta| == |row| == NUM_ORDERS && i < |eligible|
    ensures var o, before := eligible[i], WordsUpTo(meta, row, eligible, i, table, now);
            && |before| <= |WordsUpTo(meta, row, eligible, i, HEURISTIC, now)|
            && if o < NUM_ORDERS && meta[o].active
               then WordsUpTo(meta, row, eligible, i + 1, table, now) ==
                    before + Contributed(meta[o], row[o], o, table, now)
               else WordsUpTo(meta, row, eligible, i + 1, table, now) == before
  {
    WordsNext(meta, row, eligible, i, table, now);
    MoreInHeuristic(meta, row, eligible[..i], table, now);
  }

  /** The heuristic slice is the longest. */
  lemma {:induction false} MoreInHeuristic(meta: seq<OrderMeta>, row: seq<int>, eligible: seq<nat>, table: nat,
                                           now: int)
    requires |meta| == |row| == NUM_ORDERS
    ensures |Entries(meta, row, eligible, table, now)| <= |Entries(meta, row, eligible, HEURISTIC, now)|
  {
    if eligible == [] {
    } else {
      MoreInHeuristic(meta, row, eligible[..|eligible| - 1], table, now);
    }
  }

  // ---- The pair's lists ----

  lemma WrittenList(buf: seq<int>, p: nat, t: nat, ids: seq<int>)
    requires |ids| <= TOP_K && ListOffset(p, t) + TOP_K <= |buf|
    requires ListAt(buf, p, t) == Padded([])
    ensures ListAt(Written(buf, ListOffset(p, t), ids), p, t) == Padded(ids)
  {
    var off, r := ListOffset(p, t), Written(buf, ListOffset(p, t), ids);
    forall i | 0 <= i < TOP_K ensures ListAt(r, p, t)[i] == Padded(ids)[i] {
      assert ListAt(buf, p, t)[i] == Padded([])[i];
      assert r[off + i] == if i < |ids| then ids[i] else buf[off + i];
    }
  }

  lemma OtherList(buf: seq<int>, p: nat, t: nat, ids: seq<int>, u: nat)
    requires t < NUM_TABLES && u < NUM_TABLES && u != t && |ids| <= TOP_K && ListOffset(p + 1, 0) <= |buf|
    ensures ListAt(Written(buf, ListOffset(p, t), ids), p, u) == ListAt(buf, p, u)
  {
    var off, at := ListOffset(p, t), ListOffset(p, u);
    var r := Written(buf, off, ids);
    assert at + TOP_K <= off || off + TOP_K <= at;
    forall i | 0 <= i < TOP_K ensures ListAt(r, p, u)[i] == ListAt(buf, p, u)[i] {
      assert r[at + i] == buf[at + i];
    }
  }

  lemma KWrite(buf: seq<int>, p: nat, t: nat, ids: seq<int>)
    requires t < NUM_TABLES && |ids| <= TOP_K && ListOffset(p + 1, 0) <= |buf|
    requires ListAt(buf, p, t) == Padded([])
    ensures var r := Written(buf, ListOffset(p, t), ids);
            && ListAt(r, p, t) == Padded(ids)
            && (forall u: nat :: u < NUM_TABLES && u != t ==> ListAt(r, p, u) == ListAt(buf, p, u))
            && r[..ListOffset(p, 0)] == buf[..ListOffset(p, 0)]
            && r[ListOffset(p + 1, 0)..] == buf[ListOffset(p + 1, 0)..]
  {
    WrittenList(buf, p, t, ids);
    forall u: nat | u < NUM_TABLES && u != t
      ensures ListAt(Written(buf, ListOffset(p, t), ids), p, u) == ListAt(buf, p, u)
    {
      OtherList(buf, p, t, ids, u);
    }
  }

  /** Writes one table's list from its scratch words. */
  method PublishTable(dst: array<int>, p: nat, t: nat, words: WordList, sort: seq<int> -> seq<int>)
    returns (ghost scans: nat)
    requires words.Valid() && dst != words.packed && Sorts(sort, Rank)
    requires t < NUM_TABLES && ListOffset(p + 1, 0) <= dst.Length
    requires ListAt(dst[..], p, t) == Padded([])
    modifies dst, words.packed
    ensures ShowsFirst(ListAt(dst[..], p, t), old(words.Used()))
    ensures Affordable(old(words.Used()), scans)
    ensures forall u: nat :: u < NUM_TABLES && u != t ==> ListAt(dst[..], p, u) == ListAt(old(dst[..]), p, u)
    ensures dst[..ListOffset(p, 0)] == old(dst[..ListOffset(p, 0)])
    ensures dst[ListOffset(p + 1, 0)..] == old(dst[ListOffset(p + 1, 0)..])
  {
    ghost var was := dst[..];
    ghost var ids := FirstWords(words.Used());
    ghost var packed, used := words.packed[..], words.Used();
    scans := PackTopKAndCopy(dst, ListOffset(p, t), words.packed, words.len, sort);
    assert DistinctKeys(used, Rank, |used|) ==> DistinctKeys(packed, Rank, |used|);
    KWrite(was, p, t, ids);
    assert dst[..ListOffset(p, 0)] == dst[..][..ListOffset(p, 0)];
    assert dst[ListOffset(p + 1, 0)..] == dst[..][ListOffset(p + 1, 0)..];
  }

  /** The comparisons spent on a slice of words keep to the bounds, the smaller one if no word repeats. */
  ghost predicate Affordable(words: seq<int>, scans: int) { WithinBudget(words, Rank, |words|, TOP_K, scans) }

  /** The four lists of a pair, published from its eligible list. */
  ghost predicate PairPublished(buf: seq<int>, p: nat, meta: seq<OrderMeta>, row: seq<int>, eligible: seq<nat>,
                                now: int)
    requires |meta| == |row| == NUM_ORDERS && ListOffset(p + 1, 0) <= |buf|
  {
    forall t: nat :: t < NUM_TABLES ==> ShowsFirst(ListAt(buf, p, t), Words(Entries(meta, row, eligible, t, now)))
  }

  /** Publishes all four tables of a pair from the worker's scratch. */
  method PublishAll(sc: WorkerScratch, dst: array<int>, p: nat, sort: seq<int> -> seq<int>)
    returns (ghost scans: seq<nat>)
    requires sc.Valid() && dst !in sc.Repr() && ListOffset(p + 1, 0) <= dst.Length && Sorts(sort, Rank)
    requires forall t: nat :: t < NUM_TABLES ==> ListAt(dst[..], p, t) == Padded([])
    modifies dst, sc.h.packed, sc.l.packed, sc.pbt.packed, sc.crit.packed
    ensures sc.Valid()
    ensures ShowsFirst(ListAt(dst[..], p, HEURISTIC), old(sc.h.Used()))
    ensures ShowsFirst(ListAt(dst[..], p, LARGE), old(sc.l.Used()))
    ensures ShowsFirst(ListAt(dst[..], p, PBT), old(sc.pbt.Used()))
    ensures ShowsFirst(ListAt(dst[..], p, CRITICAL), old(sc.crit.Used()))
    ensures |scans| == NUM_TABLES
    ensures Affordable(old(sc.h.Used()), scans[HEURISTIC]) && Affordable(old(sc.l.Used()), scans[LARGE])
    ensures Affordable(old(sc.pbt.Used()), scans[PBT]) && Affordable(old(sc.crit.Used()), scans[CRITICAL])
    ensures dst[..ListOffset(p, 0)] == old(dst[..ListOffset(p, 0)])
    ensures dst[ListOffset(p + 1, 0)..] == old(dst[ListOffset(p + 1, 0)..])
  {
    ghost var ch := PublishTable(dst, p, HEURISTIC, sc.h, sort);
    ghost var cl := PublishTable(dst, p, LARGE, sc.l, sort);
    ghost var cp := PublishTable(dst, p, PBT, sc.pbt, sort);
    ghost var cc := PublishTable(dst, p, CRITICAL, sc.crit, sort);
    scans := [ch, cl, cp, cc];
  }

  /** The list shows the ids of the smallest of the words, padded. */
  ghost predicate ShowsFirst(list: seq<int>, words: seq<int>)
  {
    |FirstWords(words)| <= TOP_K && list == Padded(FirstWords(words))
  }

  lemma FourTables(buf: seq<int>, p: nat, meta: seq<OrderMeta>, row: seq<int>, eligible: seq<nat>, now: int)
    requires |meta| == |row| == NUM_ORDERS && ListOffset(p + 1, 0) <= |buf|
    requires ShowsFirst(ListAt(buf, p, HEURISTIC), Words(Entries(meta, row, eligible, HEURISTIC, now)))
    requires ShowsFirst(ListAt(buf, p, LARGE), Words(Entries(meta, row, eligible, LARGE, now)))
    requires ShowsFirst(ListAt(buf, p, PBT), Words(Entries(meta, row, eligible, PBT, now)))
    requires ShowsFirst(ListAt(buf, p, CRITICAL), Words(Entries(meta, row, eligible, CRITICAL, now)))
    ensures PairPublished(buf, p, meta, row, eligible, now)
  {
  }

  /** The comparisons spent per table. */
  ghost predicate AllAffordable(scans: seq<nat>, meta: seq<OrderMeta>, row: seq<int>, eligible: seq<nat>, now: int)
    requires |meta| == |row| == NUM_ORDERS
  {
    && |scans| == NUM_TABLES
    && forall t: nat :: t < NUM_TABLES ==> Affordable(Words(Entries(meta, row, eligible, t, now)), scans[t])
  }

  lemma FourBudgets(scans: seq<nat>, meta: seq<OrderMeta>, row: seq<int>, eligible: seq<nat>, now: int)
    requires |meta| == |row| == NUM_ORDERS && |scans| == NUM_TABLES
    requires Affordable(Words(Entries(meta, row, eligible, HEURISTIC, now)), scans[HEURISTIC])
    requires Affordable(Words(Entries(meta, row, eligible, LARGE, now)), scans[LARGE])
    requires Affordable(Words(Entries(meta, row, eligible, PBT, now)), scans[PBT])
    requires Affordable(Words(Entries(meta, row, eligible, CRITICAL, now)), scans[CRITICAL])
    ensures AllAffordable(scans, meta, row, eligible, now)
  {
    forall t: nat | t < NUM_TABLES ensures Affordable(Words(Entries(meta, row, eligible, t, now)), scans[t]) {
      assert t == HEURISTIC || t == LARGE || t == PBT || t == CRITICAL;
    }
  }

  /**
   * Ranks one pair: fills the worker's scratch, then selects and writes each of the four lists. When the
   * scratch overflows nothing of the pair is written.
   */
  method RankPair(sc: WorkerScratch, dst: array<int>, p: nat, meta: seq<OrderMeta>, row: seq<int>, eligible: seq<nat>,
                  nowSecs: int, sort: seq<int> -> seq<int>)
    returns (ok: bool, ghost scans: seq<nat>)
    requires sc.Valid() && dst !in sc.Repr() && Sorts(sort, Rank)
    requires |meta| == |row| == NUM_ORDERS
    requires ListOffset(p + 1, 0) <= dst.Length
    requires forall t: nat :: t < NUM_TABLES ==> ListAt(dst[..], p, t) == Padded([])
    modifies dst, sc.Repr()
    ensures sc.Valid()
    ensures ok <==> Fits(meta, row, eligible, nowSecs)
    ensures ok ==> PairPublished(dst[..], p, meta, row, eligible, nowSecs)
    ensures ok ==> AllAffordable(scans, meta, row, eligible, nowSecs)
    ensures !ok ==> dst[..] == old(dst[..])
    ensures dst[..ListOffset(p, 0)] == old(dst[..ListOffset(p, 0)])
    ensures dst[ListOffset(p + 1, 0)..] == old(dst[ListOffset(p + 1, 0)..])
  {
    ok := sc.Fill(meta, row, eligible, nowSecs);
    scans := [];
    if ok {
      scans := PublishAll(sc, dst, p, sort);
      FourTables(dst[..], p, meta, row, eligible, nowSecs);
      FourBudgets(scans, meta, row, eligible, nowSecs);
    }
  }
}
