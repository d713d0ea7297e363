/**
 * In-place selection with a median-of-three pivot. Entries are compared by an integer key, larger
 * first: the Go engines use the score, the Kotlin engine the negated packed word.
 */
module Quickselect {
  import opened Common
  import opened SeqFacts

  /** b is a with only the positions lo..hi rearranged. */
  ghost predicate Rearranged<T>(a: seq<T>, b: seq<T>, lo: int, hi: int)
  {
    && 0 <= lo <= hi + 1 <= |a| == |b|
    && (forall i :: 0 <= i < lo || hi < i < |a| ==> a[i] == b[i])
    && multiset(a[lo..hi + 1]) == multiset(b[lo..hi + 1])
  }

  lemma RearrangedTrans<T>(a: seq<T>, b: seq<T>, c: seq<T>, lo: int, hi: int)
    requires Rearranged(a, b, lo, hi) && Rearranged(b, c, lo, hi)
    ensures Rearranged(a, c, lo, hi)
  {
  }

  lemma InThree<T>(a: seq<T>, lo: int, mid: int, n: int)
    requires 0 <= lo <= mid <= n <= |a|
    ensures multiset(a[..n]) == multiset(a[..lo]) + multiset(a[lo..mid]) + multiset(a[mid..n])
  {
    assert a[..n] == a[..lo] + a[lo..mid] + a[mid..n];
  }

  lemma RearrangedWiden<T>(a: seq<T>, b: seq<T>, lo: int, hi: int, n: int)
    requires Rearranged(a, b, lo, hi) && hi < n <= |a|
    ensures Rearranged(a, b, 0, n - 1)
  {
    InThree(a, lo, hi + 1, n);
    InThree(b, lo, hi + 1, n);
    assert a[..lo] == b[..lo] && a[hi + 1..n] == b[hi + 1..n];
    assert a[0..n] == a[..n] && b[0..n] == b[..n];
  }

  /** Where an entry of b stood in a; the range maps to itself. */
  lemma RearrangedSource<T>(a: seq<T>, b: seq<T>, lo: int, hi: int, j: int) returns (i: int)
    requires Rearranged(a, b, lo, hi) && 0 <= j < |b|
    ensures 0 <= i < |a| && a[i] == b[j]
    ensures if lo <= j <= hi then lo <= i <= hi else i == j
  {
    if lo <= j <= hi {
      assert b[j] == b[lo..hi + 1][j - lo];
      assert b[j] in multiset(a[lo..hi + 1]);
      var m :| 0 <= m < hi + 1 - lo && a[lo..hi + 1][m] == b[j];
      i := lo + m;
    } else {
      i := j;
    }
  }

  lemma RearrangedSym<T>(a: seq<T>, b: seq<T>, lo: int, hi: int)
    requires Rearranged(a, b, lo, hi)
    ensures Rearranged(b, a, lo, hi)
  {
  }

  function Max3(a: int, b: int, c: int): int { if a >= b && a >= c then a else if b >= c then b else c }

  function Min3(a: int, b: int, c: int): int { if a <= b && a <= c then a else if b <= c then b else c }

  function Median(a: int, b: int, c: int): int { a + b + c - Max3(a, b, c) - Min3(a, b, c) }

  /** The one of three positions whose key is the median of a, b and c. */
  function PickMedian(a: int, b: int, c: int, lo: int, mid: int, hi: int): (m: int)
    ensures (m == lo && a == Median(a, b, c)) || (m == mid && b == Median(a, b, c)) || (m == hi && c == Median(a, b, c))
  {
    if (a >= b && b >= c) || (c >= b && b >= a) then mid
    else if (b >= a && a >= c) || (c >= a && a >= b) then lo
    else hi
  }

  /** The position, among lo, mid and hi, of the median key. */
  function MedianOfThree<T>(e: array<T>, key: T -> int, lo: int, mid: int, hi: int): (m: int)
    requires 0 <= lo <= mid <= hi < e.Length
    reads e
    ensures m == lo || m == mid || m == hi
    ensures key(e[m]) == Median(key(e[lo]), key(e[mid]), key(e[hi]))
  {
    PickMedian(key(e[lo]), key(e[mid]), key(e[hi]), lo, mid, hi)
  }

  // ---- One partition ----

  function Swapped<T>(s: seq<T>, i: int, j: int): (r: seq<T>)
    requires 0 <= i < |s| && 0 <= j < |s|
    ensures |r| == |s|
  {
    s[i := s[j]][j := s[i]]
  }

  /** The scan from position j on, with the keys at or above pivot up to position i, and the final swap. */
  function PartitionFrom<T>(s: seq<T>, key: T -> int, i: int, j: int, hi: int, pivot: int): (r: (seq<T>, int))
    requires 0 <= i + 1 <= j <= hi < |s|
    ensures |r.0| == |s| && i + 1 <= r.1 <= hi
    decreases hi - j
  {
    if j == hi then (Swapped(s, i + 1, hi), i + 1)
    else if key(s[j]) >= pivot then PartitionFrom(Swapped(s, i + 1, j), key, i + 1, j + 1, hi, pivot)
    else PartitionFrom(s, key, i, j + 1, hi, pivot)
  }

  /** The array with the pivot moved to the end of the range. */
  function PivotAside<T>(s: seq<T>, key: T -> int, lo: int, hi: int): (r: seq<T>)
    requires 0 <= lo <= hi < |s|
    ensures |r| == |s| && key(r[hi]) == Median(key(s[lo]), key(s[lo + (hi - lo) / 2]), key(s[hi]))
  {
    var mid := lo + (hi - lo) / 2;
    Swapped(s, PickMedian(key(s[lo]), key(s[mid]), key(s[hi]), lo, mid, hi), hi)
  }

  /** The array and the pivot's position after a partition of lo..hi. */
  function Partition<T>(s: seq<T>, key: T -> int, lo: int, hi: int): (r: (seq<T>, int))
    requires 0 <= lo <= hi < |s|
    ensures |r.0| == |s| && lo <= r.1 <= hi
  {
    var aside := PivotAside(s, key, lo, hi);
    PartitionFrom(aside, key, lo - 1, lo, hi, key(aside[hi]))
  }

  /** What a partition promises: b is a with lo..hi split around its median-of-three pivot at p. */
  ghost predicate PartitionOf<T>(a: seq<T>, b: seq<T>, key: T -> int, lo: int, hi: int, p: int)
  {
    && 0 <= lo <= p <= hi < |a|
    && Rearranged(a, b, lo, hi)
    && (forall m :: lo <= m < p ==> key(b[m]) >= key(b[p]))
    && (forall m :: p < m <= hi ==> key(b[m]) < key(b[p]))
    && key(b[p]) == Median(key(a[lo]), key(a[lo + (hi - lo) / 2]), key(a[hi]))
  }

  /** Of lo..j - 1, the positions up to i hold keys at or above pivot, the others smaller ones. */
  ghost predicate ScannedTo<T>(s: seq<T>, key: T -> int, lo: int, i: int, j: int, pivot: int)
  {
    && 0 <= lo <= i + 1 <= j <= |s|
    && (forall m :: lo <= m <= i ==> key(s[m]) >= pivot)
    && forall m :: i < m < j ==> key(s[m]) < pivot
  }

  lemma ScannedSwap<T>(s: seq<T>, key: T -> int, lo: int, i: int, j: int, pivot: int)
    requires ScannedTo(s, key, lo, i, j, pivot) && j < |s| && key(s[j]) >= pivot
    ensures ScannedTo(Swapped(s, i + 1, j), key, lo, i + 1, j + 1, pivot)
  {
  }

  lemma {:induction false} PartitionFromScans<T>(s: seq<T>, key: T -> int, lo: int, i: int, j: int, hi: int, pivot: int)
    requires j <= hi < |s| && ScannedTo(s, key, lo, i, j, pivot) && key(s[hi]) == pivot
    ensures var (r, p) := PartitionFrom(s, key, i, j, hi, pivot);
            ScannedTo(r, key, lo, p, hi + 1, pivot) && key(r[p]) == pivot
    decreases hi - j
  {
    if j == hi {
      ScannedSwap(s, key, lo, i, hi, pivot);
    } else if key(s[j]) >= pivot {
      ScannedSwap(s, key, lo, i, j, pivot);
      PartitionFromScans(Swapped(s, i + 1, j), key, lo, i + 1, j + 1, hi, pivot);
    } else {
      PartitionFromScans(s, key, lo, i, j + 1, hi, pivot);
    }
  }

  /** Same bag, and the same entries outside lo..hi. */
  ghost predicate KeepsBag<T>(a: seq<T>, b: seq<T>, lo: int, hi: int)
  {
    && |a| == |b| && multiset(a) == multiset(b)
    && forall m :: 0 <= m < |a| && (m < lo || hi < m) ==> a[m] == b[m]
  }

  lemma SwappedKeepsBag<T>(s: seq<T>, i: int, j: int, lo: int, hi: int)
    requires 0 <= lo <= i <= hi < |s| && lo <= j <= hi
    ensures KeepsBag(s, Swapped(s, i, j), lo, hi)
  {
    var s' := s[i := s[j]];
    assert multiset(s') == multiset(s) - multiset{s[i]} + multiset{s[j]};
    assert multiset(Swapped(s, i, j)) == multiset(s') - multiset{s'[j]} + multiset{s[i]};
  }

  lemma KeptBagRearranges<T>(a: seq<T>, b: seq<T>, lo: int, hi: int)
    requires 0 <= lo <= hi + 1 <= |a| && KeepsBag(a, b, lo, hi)
    ensures Rearranged(a, b, lo, hi)
  {
    BagOfThree(a, lo, hi + 1);
    BagOfThree(b, lo, hi + 1);
    assert a[..lo] == b[..lo] && a[hi + 1..] == b[hi + 1..];
  }

  lemma BagOfThree<T>(s: seq<T>, i: int, j: int)
    requires 0 <= i <= j <= |s|
    ensures multiset(s[i..j]) == multiset(s) - multiset(s[..i]) - multiset(s[j..])
  {
    assert s == s[..i] + s[i..j] + s[j..];
  }

  lemma {:induction false} PartitionFromKeepsBag<T>(s: seq<T>, key: T -> int, lo: int, i: int, j: int, hi: int,
                                                    pivot: int)
    requires 0 <= lo <= i + 1 <= j <= hi < |s|
    ensures KeepsBag(s, PartitionFrom(s, key, i, j, hi, pivot).0, lo, hi)
    decreases hi - j
  {
    if j == hi {
      SwappedKeepsBag(s, i + 1, hi, lo, hi);
    } else if key(s[j]) >= pivot {
      SwappedKeepsBag(s, i + 1, j, lo, hi);
      PartitionFromKeepsBag(Swapped(s, i + 1, j), key, lo, i + 1, j + 1, hi, pivot);
    } else {
      PartitionFromKeepsBag(s, key, lo, i, j + 1, hi, pivot);
    }
  }

  lemma PartitionRearranges<T>(s: seq<T>, key: T -> int, lo: int, hi: int)
    requires 0 <= lo <= hi < |s|
    ensures Rearranged(s, Partition(s, key, lo, hi).0, lo, hi)
  {
    var aside, mid := PivotAside(s, key, lo, hi), lo + (hi - lo) / 2;
    SwappedKeepsBag(s, PickMedian(key(s[lo]), key(s[mid]), key(s[hi]), lo, mid, hi), hi, lo, hi);
    PartitionFromKeepsBag(aside, key, lo, lo - 1, lo, hi, key(aside[hi]));
    KeptBagRearranges(s, Partition(s, key, lo, hi).0, lo, hi);
  }

  lemma PartitionScans<T>(s: seq<T>, key: T -> int, lo: int, hi: int)
    requires 0 <= lo <= hi < |s|
    ensures var (r, p) := Partition(s, key, lo, hi);
            && ScannedTo(r, key, lo, p, hi + 1, key(r[p]))
            && key(r[p]) == Median(key(s[lo]), key(s[lo + (hi - lo) / 2]), key(s[hi]))
  {
    var aside := PivotAside(s, key, lo, hi);
    PartitionFromScans(aside, key, lo, lo - 1, lo, hi, key(aside[hi]));
  }

  lemma PartitionSplits<T>(s: seq<T>, key: T -> int, lo: int, hi: int)
    requires 0 <= lo <= hi < |s|
    ensures PartitionOf(s, Partition(s, key, lo, hi).0, key, lo, hi, Partition(s, key, lo, hi).1)
  {
    PartitionRearranges(s, key, lo, hi);
    PartitionScans(s, key, lo, hi);
  }

  method Swap<T>(e: array<T>, i: int, j: int)
    requires 0 <= i < e.Length && 0 <= j < e.Length
    modifies e
    ensures e[..] == Swapped(old(e[..]), i, j)
  {
    e[i], e[j] := e[j], e[i];
  }

  /**
   * Partition of e[lo..hi] around its median-of-three pivot, which ends at the returned position.
   * cmps counts the comparisons of the scan.
   */
  method PartitionDesc<T>(e: array<T>, key: T -> int, lo: int, hi: int) returns (p: int, ghost cmps: nat)
    requires 0 <= lo <= hi < e.Length
    modifies e
    ensures (e[..], p) == Partition(old(e[..]), key, lo, hi)
    ensures PartitionOf(old(e[..]), e[..], key, lo, hi, p)
    ensures cmps == hi - lo
  {
    ghost var was := e[..];
    PartitionSplits(was, key, lo, hi);
    var mid := lo + (hi - lo) / 2;
    var pivotIdx := MedianOfThree(e, key, lo, mid, hi);
    Swap(e, pivotIdx, hi);
    var pivot := key(e[hi]);
    var i := lo - 1;
    cmps := 0;
    for j := lo to hi
      invariant lo - 1 <= i < j
      invariant PartitionFrom(e[..], key, i, j, hi, pivot) == Partition(was, key, lo, hi)
      invariant cmps == j - lo
    {
      cmps := cmps + 1;
      if key(e[j]) >= pivot {
        i := i + 1;
        Swap(e, i, j);
      }
    }
    Swap(e, i + 1, hi);
    p := i + 1;
  }

  ghost predicate DistinctKeys<T>(s: seq<T>, key: T -> int, n: int)
    requires n <= |s|
  {
    forall i, j :: 0 <= i < j < n ==> key(s[i]) != key(s[j])
  }

  /** The positions before `at` hold keys no smaller than those from `at` to n. */
  ghost predicate SplitAt<T>(s: seq<T>, key: T -> int, at: int, n: int)
    requires 0 <= at <= n <= |s|
  {
    forall i, j :: 0 <= i < at <= j < n ==> key(s[i]) >= key(s[j])
  }

  /** Rearranging one side of a split keeps the split. */
  lemma SplitKept<T>(a: seq<T>, b: seq<T>, key: T -> int, lo: int, hi: int, at: int, n: int)
    requires Rearranged(a, b, lo, hi) && 0 <= at <= n <= |a| && hi < n
    requires SplitAt(a, key, at, n) && (at <= lo || hi < at)
    ensures SplitAt(b, key, at, n)
  {
    forall i, j | 0 <= i < at <= j < n ensures key(b[i]) >= key(b[j]) {
      var i' := RearrangedSource(a, b, lo, hi, i);
      var j' := RearrangedSource(a, b, lo, hi, j);
      assert key(a[i']) >= key(a[j']);
    }
  }

  lemma TwiceCounted<T>(s: seq<T>, i: int, j: int)
    requires 0 <= i < j < |s| && s[i] == s[j]
    ensures Count(s, s[i]) >= 2
  {
    assert s == s[..i] + [s[i]] + s[i + 1..j] + [s[j]] + s[j + 1..];
  }

  lemma {:induction false} DistinctCounted<T>(s: seq<T>, x: T)
    requires forall i, j :: 0 <= i < j < |s| ==> s[i] != s[j]
    ensures Count(s, x) <= 1
  {
    if s == [] {
    } else {
      SnocSplit(s);
      DistinctCounted(s[..|s| - 1], x);
      assert x == s[|s| - 1] ==> x !in s[..|s| - 1];
    }
  }

  lemma DistinctKept<T>(a: seq<T>, b: seq<T>, key: T -> int, lo: int, hi: int, n: int)
    requires Rearranged(a, b, lo, hi) && hi < n <= |a| && DistinctKeys(a, key, n)
    ensures DistinctKeys(b, key, n)
  {
    forall i, j | 0 <= i < j < n ensures key(b[i]) != key(b[j]) {
      if key(b[i]) == key(b[j]) {
        var i' := RearrangedSource(a, b, lo, hi, i);
        var j' := RearrangedSource(a, b, lo, hi, j);
        assert i' == j';
        TwiceCounted(b[lo..hi + 1], i - lo, j - lo);
        DistinctCounted(a[lo..hi + 1], b[i]);
      }
    }
  }

  /** With distinct keys a median-of-three pivot leaves entries on both sides of any range of three. */
  lemma PivotStrictlyInside<T>(a: seq<T>, b: seq<T>, key: T -> int, lo: int, hi: int, p: int)
    requires PartitionOf(a, b, key, lo, hi, p) && DistinctKeys(a, key, hi + 1)
    requires lo + 2 <= hi
    ensures lo < p < hi
  {
    var mid := lo + (hi - lo) / 2;
    RearrangedSym(a, b, lo, hi);
    var l := RearrangedSource(b, a, lo, hi, lo);
    var m := RearrangedSource(b, a, lo, hi, mid);
    var h := RearrangedSource(b, a, lo, hi, hi);
    assert key(a[lo]) != key(a[mid]) && key(a[mid]) != key(a[hi]) && key(a[lo]) != key(a[hi]);
  }

  /**
   * Scans still to come on a range of the given width when every partition removes at least step
   * positions from it: 1 in general, 2 when the pivot is strictly inside.
   */
  function Scans(width: int, step: nat): nat
    requires step == 1 || step == 2
  {
    if width <= 1 then 0 else width - 1 + Scans(width - step, step)
  }

  lemma {:induction false} WorstScans(n: nat)
    ensures 2 * Scans(n, 1) == n * n - n
  {
    if n <= 1 {
    } else {
      WorstScans(n - 1);
    }
  }

  lemma {:induction false} DistinctScans(n: nat)
    ensures 4 * Scans(n, 2) <= n * n
  {
    if n <= 1 {
    } else {
      DistinctScans(n - 2);
    }
  }

  lemma {:induction false} ScansMonotone(v: int, w: int, step: nat)
    requires step == 1 || step == 2
    requires v <= w
    ensures Scans(v, step) <= Scans(w, step)
    decreases w
  {
    if w <= 1 {
    } else {
      ScansMonotone(v - step, w - step, step);
    }
  }

  /** One partition of a range, leaving a range of width rest to search. */
  lemma ScanStep(width: int, rest: int, step: nat)
    requires step == 1 || step == 2
    requires width >= 2 && (rest <= width - step || rest <= 1 == width - 1)
    ensures width - 1 + Scans(rest, step) <= Scans(width, step)
  {
    ScansMonotone(Min(rest, width - step), width - step, step);
  }

  /** What the loop keeps while position target is still inside lo..hi. */
  ghost predicate Narrowed<T>(was: seq<T>, s: seq<T>, key: T -> int, lo: int, hi: int, n: int)
  {
    && 0 <= lo <= hi + 1 <= n <= |was| == |s|
    && Rearranged(was, s, 0, n - 1)
    && SplitAt(s, key, lo, n) && SplitAt(s, key, hi + 1, n)
  }

  lemma NarrowedKept<T>(was: seq<T>, a: seq<T>, b: seq<T>, key: T -> int, lo: int, hi: int, n: int)
    requires Narrowed(was, a, key, lo, hi, n) && Rearranged(a, b, lo, hi)
    ensures Narrowed(was, b, key, lo, hi, n)
  {
    RearrangedWiden(a, b, lo, hi, n);
    RearrangedTrans(was, a, b, 0, n - 1);
    SplitKept(a, b, key, lo, hi, lo, n);
    SplitKept(a, b, key, lo, hi, hi + 1, n);
  }

  lemma SplitAroundPivot<T>(s: seq<T>, key: T -> int, lo: int, hi: int, p: int, n: int)
    requires 0 <= lo <= p <= hi < n <= |s|
    requires SplitAt(s, key, lo, n) && SplitAt(s, key, hi + 1, n)
    requires forall m :: lo <= m < p ==> key(s[m]) >= key(s[p])
    requires forall m :: p < m <= hi ==> key(s[m]) < key(s[p])
    ensures SplitAt(s, key, p, n) && SplitAt(s, key, p + 1, n)
  {
  }

  lemma DistinctNarrowed<T>(a: seq<T>, b: seq<T>, key: T -> int, lo: int, hi: int, p: int, n: int)
    requires PartitionOf(a, b, key, lo, hi, p) && lo < hi < n <= |a| && DistinctKeys(a, key, n)
    ensures DistinctKeys(b, key, n)
    ensures lo + 2 <= hi ==> lo < p < hi
  {
    DistinctKept(a, b, key, lo, hi, n);
    if lo + 2 <= hi {
      PivotStrictlyInside(a, b, key, lo, hi, p);
    }
  }

  // ---- The search ----

  datatype Range = Range(lo: int, hi: int)

  /** The side of the pivot that holds position target, or the pivot alone when it landed there. */
  function Side(r: Range, p: int, target: int): Range
  {
    if p == target then Range(p, p) else if p < target then Range(p + 1, r.hi) else Range(r.lo, p - 1)
  }

  /** The array the loop ends with, starting on the range r, and the ranges it partitions on the way. */
  function Searched<T>(s: seq<T>, key: T -> int, r: Range, target: int): (end: (seq<T>, seq<Range>))
    requires 0 <= r.lo && r.hi < |s|
    ensures |end.0| == |s|
    decreases r.hi - r.lo
  {
    if r.lo >= r.hi then (s, [])
    else
      var (s', p) := Partition(s, key, r.lo, r.hi);
      var rest := Searched(s', key, Side(r, p, target), target);
      (rest.0, [r] + rest.1)
  }

  /** One comparison for each position but the last of every partitioned range. */
  function Comparisons(ranges: seq<Range>): int
  {
    if ranges == [] then 0 else ranges[0].hi - ranges[0].lo + Comparisons(ranges[1..])
  }

  ghost predicate Inside(inner: Range, outer: Range)
  {
    outer.lo <= inner.lo && inner.hi <= outer.hi && inner.hi - inner.lo < outer.hi - outer.lo
  }

  /** Non-trivial ranges around target, each strictly inside the one before. */
  ghost predicate Nested(ranges: seq<Range>, target: int)
  {
    && (forall i :: 0 <= i < |ranges| ==> ranges[i].lo < ranges[i].hi && ranges[i].lo <= target <= ranges[i].hi)
    && forall i :: 0 <= i < |ranges| - 1 ==> Inside(ranges[i + 1], ranges[i])
  }

  lemma NestedCons(r: Range, rest: seq<Range>, next: Range, target: int)
    requires r.lo < r.hi && r.lo <= target <= r.hi && Inside(next, r)
    requires Nested(rest, target) && (rest != [] ==> rest[0] == next)
    ensures Nested([r] + rest, target) && Comparisons([r] + rest) == r.hi - r.lo + Comparisons(rest)
  {
    var all := [r] + rest;
    assert all[1..] == rest;
    forall i | 0 <= i < |all| - 1 ensures Inside(all[i + 1], all[i]) {
      assert i > 0 ==> Inside(rest[i], rest[i - 1]);
    }
  }

  /** What one partition leaves to search, and that distinct keys stay distinct. */
  lemma SideShrinks<T>(s: seq<T>, key: T -> int, r: Range, target: int, n: int)
    requires 0 <= r.lo <= target <= r.hi < n <= |s| && r.lo < r.hi
    ensures var (s', p) := Partition(s, key, r.lo, r.hi);
            var next := Side(r, p, target);
            && r.lo <= next.lo <= target <= next.hi <= r.hi && next.hi - next.lo < r.hi - r.lo
            && (DistinctKeys(s, key, n) ==>
                  DistinctKeys(s', key, n) && (r.lo + 2 <= r.hi ==> next.hi - next.lo < r.hi - r.lo - 1))
  {
    var (s', p) := Partition(s, key, r.lo, r.hi);
    PartitionSplits(s, key, r.lo, r.hi);
    if DistinctKeys(s, key, n) {
      DistinctNarrowed(s, s', key, r.lo, r.hi, p, n);
    }
  }

  /** The search starts with the whole range and narrows it strictly around the target. */
  lemma {:induction false} SearchNests<T>(s: seq<T>, key: T -> int, r: Range, target: int)
    requires 0 <= r.lo <= target <= r.hi < |s|
    ensures var ranges := Searched(s, key, r, target).1;
            && (ranges == [] <==> r.lo == r.hi) && (ranges != [] ==> ranges[0] == r)
            && Nested(ranges, target) && Comparisons(ranges) >= r.hi - r.lo
    decreases r.hi - r.lo
  {
    if r.lo >= r.hi {
    } else {
      var (s', p) := Partition(s, key, r.lo, r.hi);
      var next := Side(r, p, target);
      SideShrinks(s, key, r, target, r.hi + 1);
      SearchNests(s', key, next, target);
      NestedCons(r, Searched(s', key, next, target).1, next, target);
    }
  }

  /** The search leaves at the target the entry of that rank. */
  lemma {:induction false} SearchFinds<T>(was: seq<T>, s: seq<T>, key: T -> int, r: Range, target: int, n: int)
    requires Narrowed(was, s, key, r.lo, r.hi, n) && r.lo <= target <= r.hi
    ensures Narrowed(was, Searched(s, key, r, target).0, key, target, target, n)
    decreases r.hi - r.lo
  {
    if r.lo >= r.hi {
    } else {
      var (s', p) := Partition(s, key, r.lo, r.hi);
      PartitionNarrows(was, s, key, r, target, n);
      SearchFinds(was, s', key, Side(r, p, target), target, n);
    }
  }

  lemma PartitionNarrows<T>(was: seq<T>, s: seq<T>, key: T -> int, r: Range, target: int, n: int)
    requires Narrowed(was, s, key, r.lo, r.hi, n) && r.lo < r.hi && r.lo <= target <= r.hi
    ensures var (s', p) := Partition(s, key, r.lo, r.hi);
            Narrowed(was, s', key, Side(r, p, target).lo, Side(r, p, target).hi, n)
  {
    var (s', p) := Partition(s, key, r.lo, r.hi);
    PartitionSplits(s, key, r.lo, r.hi);
    NarrowedKept(was, s, s', key, r.lo, r.hi, n);
    SplitAroundPivot(s', key, r.lo, r.hi, p, n);
  }

  /** The comparisons of a search, with distinct keys at the cheaper rate. */
  lemma {:induction false} SearchCost<T>(s: seq<T>, key: T -> int, r: Range, target: int, n: int, step: nat)
    requires 0 <= r.lo <= target <= r.hi < n <= |s|
    requires step == 1 || (step == 2 && DistinctKeys(s, key, n))
    ensures Comparisons(Searched(s, key, r, target).1) <= Scans(r.hi - r.lo + 1, step)
    decreases r.hi - r.lo
  {
    if r.lo >= r.hi {
    } else {
      var (s', p) := Partition(s, key, r.lo, r.hi);
      var next := Side(r, p, target);
      SideShrinks(s, key, r, target, n);
      SearchCost(s', key, next, target, n, step);
      ScanStep(r.hi - r.lo + 1, next.hi - next.lo + 1, step);
    }
  }

  lemma SearchedNext<T>(s: seq<T>, key: T -> int, r: Range, target: int)
    requires 0 <= r.lo < r.hi < |s|
    ensures var (s', p) := Partition(s, key, r.lo, r.hi);
            var now, next := Searched(s, key, r, target), Searched(s', key, Side(r, p, target), target);
            now.0 == next.0 && Comparisons(now.1) == r.hi - r.lo + Comparisons(next.1)
  {
  }

  /** One round of the loop below: partition lo..hi, then keep the side that holds position target. */
  method NarrowOnce<T>(e: array<T>, key: T -> int, lo: int, hi: int, target: int, ghost n: int, ghost was: seq<T>)
    returns (lo': int, hi': int, ghost cmps: nat)
    requires 0 <= lo < hi < n <= e.Length && lo <= target <= hi
    requires Narrowed(was, e[..], key, lo, hi, n)
    modifies e
    ensures var (s, p) := Partition(old(e[..]), key, lo, hi);
            e[..] == s && Range(lo', hi') == Side(Range(lo, hi), p, target)
    ensures cmps == hi - lo
    ensures lo <= lo' <= target <= hi' <= hi && hi' - lo' < hi - lo
    ensures Narrowed(was, e[..], key, lo', hi', n)
    ensures DistinctKeys(old(e[..]), key, n) ==>
              DistinctKeys(e[..], key, n) && (lo + 2 <= hi ==> hi' - lo' < hi - lo - 1)
  {
    PartitionNarrows(was, e[..], key, Range(lo, hi), target, n);
    SideShrinks(e[..], key, Range(lo, hi), target, n);
    var p: int;
    p, cmps := PartitionDesc(e, key, lo, hi);
    if p == target {
      lo', hi' := p, p;
    } else if p < target {
      lo', hi' := p + 1, hi;
    } else {
      lo', hi' := lo, p - 1;
    }
  }

  /**
   * The loop the engines share: rearranges e[..n] until position target holds the entry of that
   * rank. scans adds up the key comparisons of the partitions.
   */
  method SelectAround<T>(e: array<T>, key: T -> int, n: int, target: int) returns (ghost scans: nat)
    requires 0 <= target < n <= e.Length
    modifies e
    ensures e[..] == Searched(old(e[..]), key, Range(0, n - 1), target).0
    ensures Narrowed(old(e[..]), e[..], key, target, target, n)
    ensures scans == Comparisons(Searched(old(e[..]), key, Range(0, n - 1), target).1)
  {
    ghost var was := e[..];
    ghost var search := Searched(was, key, Range(0, n - 1), target);
    ghost var end, ranges := search.0, search.1;
    var lo, hi := 0, n - 1;
    scans := 0;
    while lo < hi
      invariant 0 <= lo <= target <= hi < n
      invariant Narrowed(was, e[..], key, lo, hi, n)
      invariant Searched(e[..], key, Range(lo, hi), target).0 == end
      invariant scans + Comparisons(Searched(e[..], key, Range(lo, hi), target).1) == Comparisons(ranges)
      decreases hi - lo
    {
      SearchedNext(e[..], key, Range(lo, hi), target);
      ghost var cmps: nat;
      lo, hi, cmps := NarrowOnce(e, key, lo, hi, target, n, was);
      scans := scans + cmps;
    }
  }
}
