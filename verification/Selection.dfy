/** The top-k routines of the two Go engines, over scratch arrays of score entries. */
module Selection {
  import opened Common
  import opened Ranking
  import opened Quickselect

  function ScoreOf(x: ScoreEntry): int { x.score }

  /** A library sort of score entries, as the function it computes. */
  type EntrySort = seq<ScoreEntry> -> seq<ScoreEntry>

  ghost predicate SortedBy<T>(s: seq<T>, key: T -> int, k: int)
    requires 0 <= k <= |s|
  {
    forall i, j :: 0 <= i < j < k ==> key(s[i]) >= key(s[j])
  }

  /** What the library sort promises: the same entries in descending key order, ties in any order. */
  ghost predicate Sorts<T(!new)>(sort: seq<T> -> seq<T>, key: T -> int)
  {
    forall s {:trigger sort(s)} :: |sort(s)| == |s| && multiset(sort(s)) == multiset(s) && SortedBy(sort(s), key, |s|)
  }

  /** The first k entries in their place, sorted. */
  function FrontSorted<T>(s: seq<T>, sort: seq<T> -> seq<T>, k: int): seq<T>
    requires 0 <= k <= |s|
  {
    sort(s[..k]) + s[k..]
  }

  /** The library sort on the first k entries. */
  method SortPrefix<T(!new)>(e: array<T>, key: T -> int, sort: seq<T> -> seq<T>, k: int)
    requires 0 <= k <= e.Length && Sorts(sort, key)
    modifies e
    ensures e[..] == FrontSorted(old(e[..]), sort, k)
  {
    ghost var was := e[..];
    assert e[..k] == was[..k];
    var sorted := sort(e[..k]);
    SortKeepsLength(was[..k], key, sort);
    Overwrite(e, sorted);
    assert was[|sorted|..] == was[k..];
  }

  lemma SortKeepsLength<T(!new)>(s: seq<T>, key: T -> int, sort: seq<T> -> seq<T>)
    requires Sorts(sort, key)
    ensures |sort(s)| == |s| && multiset(sort(s)) == multiset(s) && SortedBy(sort(s), key, |s|)
  {
  }

  /** Writes a sequence over the front of an array. */
  method Overwrite<T>(e: array<T>, front: seq<T>)
    requires |front| <= e.Length
    modifies e
    ensures e[..] == front + old(e[|front|..])
  {
    for i := 0 to |front|
      invariant forall m :: 0 <= m < i ==> e[m] == front[m]
      invariant forall m :: i <= m < e.Length ==> e[m] == old(e[m])
    {
      e[i] := front[i];
    }
  }

  lemma PrefixSorted<T(!new)>(e: seq<T>, key: T -> int, sort: seq<T> -> seq<T>, k: int)
    requires 0 <= k <= |e| && Sorts(sort, key)
    ensures var r := FrontSorted(e, sort, k);
            |r| == |e| && Rearranged(e, r, 0, k - 1) && SortedBy(r, key, k)
  {
    var front, r := sort(e[..k]), FrontSorted(e, sort, k);
    assert SortedBy(front, key, k);
    assert r[0..k] == front && e[0..k] == e[..k];
  }

  /** Sorting a prefix of a split array keeps the split at the end of that prefix. */
  lemma SortedSplit<T>(was: seq<T>, a: seq<T>, b: seq<T>, key: T -> int, k: int, n: int)
    requires 0 <= k <= n <= |was|
    requires Rearranged(was, a, 0, n - 1) && Rearranged(a, b, 0, k - 1)
    requires SplitAt(a, key, k, n)
    ensures Rearranged(was, b, 0, n - 1) && SplitAt(b, key, k, n)
  {
    if k == 0 {
      assert b == a;
    } else {
      SplitKept(a, b, key, 0, k - 1, k, n);
      RearrangedWiden(a, b, 0, k - 1, n);
      RearrangedTrans(was, a, b, 0, n - 1);
    }
  }

  /** The array after a search for position target of its first n entries, and the comparisons spent. */
  function Selected<T>(e: seq<T>, key: T -> int, n: nat, target: int): (r: (seq<T>, int))
    requires 0 <= target < n <= |e|
    ensures |r.0| == |e|
  {
    var (s, ranges) := Searched(e, key, Range(0, n - 1), target);
    (s, Comparisons(ranges))
  }

  /** A search splits the entries just before its target and just after it. */
  lemma SelectedSplits<T>(e: seq<T>, key: T -> int, n: nat, target: int)
    requires 0 <= target < n <= |e|
    ensures var s := Selected(e, key, n, target).0;
            Rearranged(e, s, 0, n - 1) && SplitAt(s, key, target, n) && SplitAt(s, key, target + 1, n)
  {
    SearchFinds(e, e, key, Range(0, n - 1), target, n);
  }

  /** It scans the whole array at least once, and never more than the two bounds. */
  lemma SelectedCost<T>(e: seq<T>, key: T -> int, n: nat, target: int)
    requires 0 <= target < n <= |e|
    ensures var scans := Selected(e, key, n, target).1;
            && n - 1 <= scans && 2 * scans <= n * n - n
            && (DistinctKeys(e, key, n) ==> 4 * scans <= n * n)
  {
    SearchNests(e, key, Range(0, n - 1), target);
    SearchCost(e, key, Range(0, n - 1), target, n, 1);
    WorstScans(n);
    if DistinctKeys(e, key, n) {
      SearchCost(e, key, Range(0, n - 1), target, n, 2);
      DistinctScans(n);
    }
  }

  /** now is was with the k best of its first n entries in front, or was itself when k makes that trivial. */
  ghost predicate KBestInFront<T>(was: seq<T>, now: seq<T>, key: T -> int, n: nat, k: int)
    requires n <= |was|
  {
    && Rearranged(was, now, 0, n - 1)
    && (if 0 < k < n then SplitAt(now, key, k, n) else now == was)
  }

  /** The comparisons of one selection: none when trivial, at least one scan otherwise, and both upper bounds. */
  ghost predicate WithinBudget<T>(was: seq<T>, key: T -> int, n: nat, k: int, scans: int)
    requires n <= |was|
  {
    && (if 0 < k < n then n - 1 <= scans else scans == 0)
    && 2 * scans <= n * n - n
    && (DistinctKeys(was, key, n) ==> 4 * scans <= n * n)
  }

  /** Sorting the front of a split array keeps the split and sorts the front. */
  lemma SplitThenSorted<T(!new)>(e: seq<T>, s: seq<T>, key: T -> int, sort: seq<T> -> seq<T>, n: nat, k: int)
    requires 0 <= k <= n <= |e| && Rearranged(e, s, 0, n - 1) && SplitAt(s, key, k, n) && Sorts(sort, key)
    ensures var r := FrontSorted(s, sort, k);
            |r| == |e| && Rearranged(e, r, 0, n - 1) && SplitAt(r, key, k, n) && SortedBy(r, key, k)
  {
    PrefixSorted(s, key, sort, k);
    SortedSplit(e, s, FrontSorted(s, sort, k), key, k, n);
  }

  /** go-cgo's result: a search for position k. */
  function TopK<T>(e: seq<T>, key: T -> int, n: nat, k: int): (r: (seq<T>, int))
    requires n <= |e|
    ensures |r.0| == |e|
  {
    if k <= 0 || k >= n then (e, 0) else Selected(e, key, n, k)
  }

  /** go-pure's result: a search for position k - 1, then the front sorted. */
  function TopKSorted<T>(e: seq<T>, key: T -> int, sort: seq<T> -> seq<T>, n: nat, k: int): (seq<T>, int)
    requires n <= |e|
  {
    if k <= 0 || k >= n then (e, 0)
    else var (s, c) := Selected(e, key, n, k - 1); (FrontSorted(s, sort, k), c)
  }

  lemma TopKIsBest<T>(e: seq<T>, key: T -> int, n: nat, k: int)
    requires n <= |e|
    ensures KBestInFront(e, TopK(e, key, n, k).0, key, n, k)
  {
    if 0 < k < n {
      SelectedSplits(e, key, n, k);
    }
  }

  lemma TopKSortedIsBest<T(!new)>(e: seq<T>, key: T -> int, sort: seq<T> -> seq<T>, n: nat, k: int)
    requires n <= |e| && Sorts(sort, key)
    ensures var s := TopKSorted(e, key, sort, n, k).0;
            KBestInFront(e, s, key, n, k) && (0 < k < n ==> SortedBy(s, key, k))
  {
    if 0 < k < n {
      SelectedSplits(e, key, n, k - 1);
      SplitThenSorted(e, Selected(e, key, n, k - 1).0, key, sort, n, k);
    }
  }

  /** Both variants stay within the same budget. */
  lemma SelectionBudget<T>(e: seq<T>, key: T -> int, sort: seq<T> -> seq<T>, n: nat, k: int)
    requires n <= |e|
    ensures WithinBudget(e, key, n, k, TopK(e, key, n, k).1)
    ensures WithinBudget(e, key, n, k, TopKSorted(e, key, sort, n, k).1)
  {
    if 0 < k < n {
      SelectedCost(e, key, n, k);
      SelectedCost(e, key, n, k - 1);
    } else {
      assert n * n >= n;
    }
  }

  /** go-cgo: returns with the k best of e[..n] in front, unless k makes that trivial. */
  method QuickselectTopK<T>(e: array<T>, key: T -> int, n: nat, k: int) returns (ghost scans: nat)
    requires n <= e.Length
    modifies e
    ensures (e[..], scans) == TopK(old(e[..]), key, n, k)
    ensures KBestInFront(old(e[..]), e[..], key, n, k)
    ensures WithinBudget(old(e[..]), key, n, k, scans)
  {
    TopKIsBest(e[..], key, n, k);
    SelectionBudget(e[..], key, s => s, n, k);
    if k <= 0 || n == 0 || k >= n {
      return 0;
    }
    scans := SelectAround(e, key, n, k);
  }

  /** What the variant from target k - 1 keeps: the split, the sorted prefix and the budget. */
  lemma TopKSortedKept<T(!new)>(e: seq<T>, key: T -> int, sort: seq<T> -> seq<T>, n: nat, k: int)
    requires n <= |e| && Sorts(sort, key)
    ensures var (s, scans) := TopKSorted(e, key, sort, n, k);
            && KBestInFront(e, s, key, n, k) && (0 < k < n ==> SortedBy(s, key, k))
            && WithinBudget(e, key, n, k, scans)
  {
    TopKSortedIsBest(e, key, sort, n, k);
    SelectionBudget(e, key, sort, n, k);
  }

  /** go-pure: the search stops one position earlier and the prefix comes back sorted. */
  method QuickselectTopKSorted<T(!new)>(e: array<T>, key: T -> int, sort: seq<T> -> seq<T>, n: nat, k: int)
    returns (ghost scans: nat)
    requires n <= e.Length && Sorts(sort, key)
    modifies e
    ensures (e[..], scans) == TopKSorted(old(e[..]), key, sort, n, k)
    ensures KBestInFront(old(e[..]), e[..], key, n, k) && (0 < k < n ==> SortedBy(e[..], key, k))
    ensures WithinBudget(old(e[..]), key, n, k, scans)
  {
    ghost var was := e[..];
    TopKSortedKept(was, key, sort, n, k);
    if k <= 0 || n <= k {
      return 0;
    }
    scans := SelectAround(e, key, n, k - 1);
    assert (e[..], scans) == Selected(was, key, n, k - 1);
    SortPrefix(e, key, sort, k);
  }

  /** A slice after the go-cgo routine: selected when it is longer than the list, then its front sorted. */
  function Arranged(e: seq<ScoreEntry>, sort: EntrySort): seq<ScoreEntry>
  {
    var k := Min(|e|, TOP_K);
    FrontSorted(TopK(e, ScoreOf, |e|, k).0, sort, k)
  }

  /** The same for go-pure, which sorts inside the selection or, when there is nothing to select, after it. */
  function ArrangedEarlier(e: seq<ScoreEntry>, sort: EntrySort): seq<ScoreEntry>
  {
    var k := Min(|e|, TOP_K);
    if |e| <= k then FrontSorted(e, sort, k) else TopKSorted(e, ScoreOf, sort, |e|, k).0
  }

  /** The part of a rearranged slice that is copied into the list. */
  function Front(r: seq<ScoreEntry>): (f: seq<ScoreEntry>)
    ensures |f| == Min(|r|, TOP_K)
  {
    r[..Min(|r|, TOP_K)]
  }

  /** Whatever the library does with ties, both routines put a top list in front. */
  lemma ArrangedIsTop(e: seq<ScoreEntry>, sort: EntrySort)
    requires Sorts(sort, ScoreOf)
    ensures |Arranged(e, sort)| == |ArrangedEarlier(e, sort)| == |e|
    ensures TopEntries(Front(Arranged(e, sort)), e, TOP_K)
    ensures TopEntries(Front(ArrangedEarlier(e, sort)), e, TOP_K)
  {
    var n, k := |e|, Min(|e|, TOP_K);
    TopKIsBest(e, ScoreOf, n, k);
    SortedFrontIsTop(e, TopK(e, ScoreOf, n, k).0, sort);
    if n <= k {
      SortedFrontIsTop(e, e, sort);
    } else {
      TopKSortedIsBest(e, ScoreOf, sort, n, k);
      FrontIsTop(e, ArrangedEarlier(e, sort), k, n);
      assert e[..n] == e;
    }
  }

  /** The go-cgo routine as a function from slices to slices. */
  function ArrangeWith(sort: EntrySort): EntrySort { e => Arranged(e, sort) }

  /** arr puts a top list of any slice in its front. */
  ghost predicate Selects(arr: EntrySort)
  {
    forall e {:trigger arr(e)} :: |arr(e)| == |e| && TopEntries(Front(arr(e)), e, TOP_K)
  }

  lemma ArrangeWithSelects(sort: EntrySort)
    requires Sorts(sort, ScoreOf)
    ensures Selects(ArrangeWith(sort))
  {
    forall e ensures |ArrangeWith(sort)(e)| == |e| && TopEntries(Front(ArrangeWith(sort)(e)), e, TOP_K) {
      ArrangedIsTop(e, sort);
    }
  }

  lemma SortedFrontIsTop(e: seq<ScoreEntry>, s: seq<ScoreEntry>, sort: EntrySort)
    requires Sorts(sort, ScoreOf) && Rearranged(e, s, 0, |e| - 1) && SplitAt(s, ScoreOf, Min(|e|, TOP_K), |e|)
    ensures var k := Min(|e|, TOP_K);
            |FrontSorted(s, sort, k)| == |e| && TopEntries(FrontSorted(s, sort, k)[..k], e, TOP_K)
  {
    var k := Min(|e|, TOP_K);
    var r := FrontSorted(s, sort, k);
    SplitThenSorted(e, s, ScoreOf, sort, |e|, k);
    FrontIsTop(e, r, k, |e|);
    assert e[..|e|] == e;
  }

  /** A split and sorted scratch array carries a top-k list in front. */
  lemma FrontIsTop(was: seq<ScoreEntry>, e: seq<ScoreEntry>, k: int, n: nat)
    requires n <= |was| && k == Min(n, TOP_K)
    requires Rearranged(was, e, 0, n - 1) && SplitAt(e, ScoreOf, k, n) && SortedBy(e, ScoreOf, k)
    ensures TopEntries(e[..k], was[..n], TOP_K)
  {
    SplitBags(was, e, k, n);
    FrontDescends(e, k);
    FrontDominates(e, k, n);
  }

  lemma FrontDescends(e: seq<ScoreEntry>, k: int)
    requires 0 <= k <= |e| && SortedBy(e, ScoreOf, k)
    ensures Descending(Scores(e[..k]))
  {
    forall i, j | 0 <= i < j < k ensures Scores(e[..k])[i] >= Scores(e[..k])[j] {
      assert ScoreOf(e[i]) >= ScoreOf(e[j]);
    }
  }

  lemma FrontDominates(e: seq<ScoreEntry>, k: int, n: int)
    requires 0 <= k <= n <= |e| && SplitAt(e, ScoreOf, k, n)
    ensures forall x: ScoreEntry, y: ScoreEntry :: x in e[..k] && y in multiset(e[k..n]) ==> x.score >= y.score
  {
    forall x: ScoreEntry, y: ScoreEntry | x in e[..k] && y in multiset(e[k..n]) ensures x.score >= y.score {
      var i :| 0 <= i < k && e[i] == x;
      var j :| k <= j < n && e[j] == y;
      assert ScoreOf(e[i]) >= ScoreOf(e[j]);
    }
  }

  lemma SplitBags<T>(was: seq<T>, e: seq<T>, k: int, n: nat)
    requires 0 <= k <= n <= |was| && Rearranged(was, e, 0, n - 1)
    ensures multiset(e[..k]) <= multiset(was[..n])
    ensures multiset(was[..n]) - multiset(e[..k]) == multiset(e[k..n])
  {
    assert e[..n] == e[..k] + e[k..n] && was[0..n] == was[..n] && e[0..n] == e[..n];
  }

  /** dst, from position off, after a list of ids was written over it. */
  function Written(dst: seq<int>, off: nat, ids: seq<int>): (r: seq<int>)
    requires off + |ids| <= |dst|
    ensures |r| == |dst|
  {
    dst[..off] + ids + dst[off + |ids|..]
  }

  lemma WrittenNext(dst: seq<int>, off: nat, ids: seq<int>, id: int)
    requires off + |ids| < |dst|
    ensures Written(dst, off, ids + [id]) == Written(dst, off, ids)[off + |ids| := id]
  {
  }

  method CopyIds(dst: array<int>, off: nat, e: array<ScoreEntry>, k: nat)
    requires k <= e.Length && off + k <= dst.Length
    modifies dst
    ensures dst[..] == Written(old(dst[..]), off, Ids(e[..k]))
  {
    ghost var was := dst[..];
    for i := 0 to k
      invariant dst[..] == Written(was, off, Ids(e[..i]))
    {
      WrittenNext(was, off, Ids(e[..i]), e[i].id);
      assert Ids(e[..i + 1]) == Ids(e[..i]) + [e[i].id];
      dst[off + i] := e[i].id;
    }
  }

  /** go-cgo: ranks the scratch entries in place and writes the ids of the best into dst at off. */
  method QuickselectAndCopy(dst: array<int>, off: nat, scratch: array<ScoreEntry>, sort: EntrySort)
    returns (ghost top: seq<ScoreEntry>)
    requires off + TOP_K <= dst.Length && Sorts(sort, ScoreOf)
    modifies dst, scratch
    ensures top == Front(Arranged(old(scratch[..]), sort)) && TopEntries(top, old(scratch[..]), TOP_K)
    ensures dst[..] == Written(old(dst[..]), off, Ids(top))
  {
    var n := scratch.Length;
    var k := Min(n, TOP_K);
    ArrangedIsTop(scratch[..], sort);
    top := Front(Arranged(scratch[..], sort));
    if k == 0 {
      assert dst[..] == Written(old(dst[..]), off, []);
      return;
    }
    ghost var scans := QuickselectTopK(scratch, ScoreOf, n, k);
    SortPrefix(scratch, ScoreOf, sort, k);
    CopyIds(dst, off, scratch, k);
    assert top == scratch[..k];
  }

  /** go-pure: sorts once, inside the selection or, when there was nothing to select, after it. */
  method QuickselectAndCopySorted(dst: array<int>, off: nat, scratch: array<ScoreEntry>, sort: EntrySort)
    returns (ghost top: seq<ScoreEntry>)
    requires off + TOP_K <= dst.Length && Sorts(sort, ScoreOf)
    modifies dst, scratch
    ensures top == Front(ArrangedEarlier(old(scratch[..]), sort)) && TopEntries(top, old(scratch[..]), TOP_K)
    ensures dst[..] == Written(old(dst[..]), off, Ids(top))
  {
    var n := scratch.Length;
    var k := Min(n, TOP_K);
    ArrangedIsTop(scratch[..], sort);
    top := Front(ArrangedEarlier(scratch[..], sort));
    if k == 0 {
      assert dst[..] == Written(old(dst[..]), off, []);
      return;
    }
    ghost var scans := QuickselectTopKSorted(scratch, ScoreOf, sort, n, k);
    if n <= k {
      SortPrefix(scratch, ScoreOf, sort, k);
    }
    CopyIds(dst, off, scratch, k);
    assert top == scratch[..k];
  }

  /**
   * The critical candidates are the deadline candidates at or above the threshold c. Their
   * published scores are the longest prefix of the published deadline scores that stays at or
   * above c, however ties at the cut were broken.
   */
  lemma ThresholdListIsPrefix(top: seq<ScoreEntry>, all: seq<ScoreEntry>, cut: seq<ScoreEntry>, kept: seq<ScoreEntry>,
                              c: int)
    requires TopEntries(top, all, TOP_K) && TopEntries(cut, kept, TOP_K)
    requires Scores(kept) == AtLeast(Scores(all), c)
    ensures Scores(cut) == PrefixAtLeast(Scores(top), c)
  {
    TopScores(top, all, TOP_K);
    TopScores(cut, kept, TOP_K);
    SortAtLeast(Scores(all), c);
    PrefixTruncated(SortDesc(Scores(all)), c, TOP_K);
  }
}
