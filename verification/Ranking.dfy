/** What it means to be a top-k list, and why its score sequence is determined. */
module Ranking {
  import opened Common
  import opened SeqFacts

  datatype ScoreEntry = ScoreEntry(score: int, id: int)

  function Scores(s: seq<ScoreEntry>): (r: seq<int>)
    ensures |r| == |s| && forall i :: 0 <= i < |s| ==> r[i] == s[i].score
  {
    seq(|s|, i requires 0 <= i < |s| => s[i].score)
  }

  function Ids(s: seq<ScoreEntry>): (r: seq<int>)
    ensures |r| == |s| && forall i :: 0 <= i < |s| ==> r[i] == s[i].id
  {
    seq(|s|, i requires 0 <= i < |s| => s[i].id)
  }

  ghost predicate Descending(s: seq<int>)
  {
    forall i, j :: 0 <= i < j < |s| ==> s[i] >= s[j]
  }

  /** top is a descending list of the k best of all (or of everything when there are fewer). */
  ghost predicate TopEntries(top: seq<ScoreEntry>, all: seq<ScoreEntry>, k: nat)
  {
    && |top| == Min(|all|, k)
    && Descending(Scores(top))
    && multiset(top) <= multiset(all)
    && forall x, y :: x in top && y in multiset(all) - multiset(top) ==> x.score >= y.score
  }

  /** Entries whose score is a function of the id are counted by their ids. */
  lemma {:induction false} IdCount(s: seq<ScoreEntry>, f: int -> int, y: int)
    requires forall e :: e in s ==> e.score == f(e.id)
    ensures Count(Ids(s), y) == Count(s, ScoreEntry(f(y), y))
  {
    if s == [] {
    } else {
      SnocSplit(s);
      SnocSplit(Ids(s));
      var front := s[..|s| - 1];
      assert Ids(s)[..|s| - 1] == Ids(front);
      assert s[|s| - 1] in s;
      IdCount(front, f, y);
    }
  }

  /** Entries with such scores, of which top is a top-k list. */
  ghost predicate TopByKey(top: seq<ScoreEntry>, all: seq<ScoreEntry>, f: int -> int, k: nat)
  {
    TopEntries(top, all, k) && forall e :: e in all ==> e.score == f(e.id)
  }

  lemma TopIdCounts(top: seq<ScoreEntry>, all: seq<ScoreEntry>, f: int -> int, k: nat, y: int)
    requires TopByKey(top, all, f, k)
    ensures forall e :: e in top ==> e.score == f(e.id)
    ensures Count(Ids(top), y) == Count(top, ScoreEntry(f(y), y))
    ensures Count(Ids(all), y) == Count(all, ScoreEntry(f(y), y))
  {
    forall e | e in top ensures e.score == f(e.id) {
      assert e in multiset(top);
    }
    IdCount(top, f, y);
    IdCount(all, f, y);
  }

  lemma TopIdsIncluded(top: seq<ScoreEntry>, all: seq<ScoreEntry>, f: int -> int, k: nat)
    requires TopByKey(top, all, f, k)
    ensures multiset(Ids(top)) <= multiset(Ids(all))
  {
    var part, whole := multiset(Ids(top)), multiset(Ids(all));
    forall y ensures part[y] <= whole[y] {
      TopIdCounts(top, all, f, k, y);
      assert part[y] == Count(Ids(top), y) && whole[y] == Count(Ids(all), y);
    }
  }

  lemma TopIdsSorted(top: seq<ScoreEntry>, all: seq<ScoreEntry>, f: int -> int, k: nat, i: nat, j: nat)
    requires TopByKey(top, all, f, k) && i < j < |top|
    ensures f(top[i].id) >= f(top[j].id)
  {
    TopIdCounts(top, all, f, k, 0);
    assert top[i] in top && top[j] in top;
    assert Scores(top)[i] >= Scores(top)[j];
  }

  lemma TopIdsBest(top: seq<ScoreEntry>, all: seq<ScoreEntry>, f: int -> int, k: nat, i: nat, y: int)
    requires TopByKey(top, all, f, k) && i < |top|
    requires Count(Ids(top), y) < Count(Ids(all), y)
    ensures f(top[i].id) >= f(y)
  {
    TopIdCounts(top, all, f, k, y);
    assert top[i] in top && ScoreEntry(f(y), y) in multiset(all) - multiset(top);
  }

  // ---- The canonical descending order of a bag of integers ----

  function Insert(x: int, s: seq<int>): seq<int>
  {
    if s == [] || x >= s[0] then [x] + s else [s[0]] + Insert(x, s[1..])
  }

  function SortDesc(s: seq<int>): seq<int>
  {
    if s == [] then [] else Insert(s[0], SortDesc(s[1..]))
  }

  lemma {:induction false} InsertBag(x: int, s: seq<int>)
    ensures multiset(Insert(x, s)) == multiset(s) + multiset{x}
  {
    if s == [] || x >= s[0] {
    } else {
      ConsSplit(s);
      InsertBag(x, s[1..]);
    }
  }

  /** The head of a descending list bounds its tail, which is descending too. */
  lemma HeadBounds(s: seq<int>)
    requires Descending(s) && s != []
    ensures Descending(s[1..]) && forall y :: y in s[1..] ==> s[0] >= y
  {
    forall y | y in s[1..] ensures s[0] >= y {
      var i :| 1 <= i < |s| && s[i] == y;
    }
  }

  lemma DescendingAppend(a: seq<int>, b: seq<int>)
    requires Descending(a) && Descending(b)
    requires forall x, y :: x in a && y in b ==> x >= y
    ensures Descending(a + b)
  {
    var t := a + b;
    forall i, j | 0 <= i < j < |t| ensures t[i] >= t[j] {
      if j < |a| {
        assert t[i] == a[i] && t[j] == a[j];
      } else if i < |a| {
        assert t[i] == a[i] && a[i] in a;
        assert t[j] == b[j - |a|] && b[j - |a|] in b;
      } else {
        assert t[i] == b[i - |a|] && t[j] == b[j - |a|];
      }
    }
  }

  lemma {:induction false} InsertDescending(x: int, s: seq<int>)
    requires Descending(s)
    ensures Descending(Insert(x, s))
  {
    if s == [] {
    } else {
      HeadBounds(s);
      if x < s[0] {
        InsertDescending(x, s[1..]);
        InsertBag(x, s[1..]);
        var t := Insert(x, s[1..]);
        forall y | y in t ensures s[0] >= y {
          assert y in multiset(s[1..]) + multiset{x};
        }
        ConsSplit(s);
        DescendingAppend([s[0]], t);
      } else {
        DescendingAppend([x], s);
      }
    }
  }

  lemma {:induction false} SortDescFacts(s: seq<int>)
    ensures Descending(SortDesc(s))
    ensures multiset(SortDesc(s)) == multiset(s)
    ensures |SortDesc(s)| == |s|
  {
    if s == [] {
    } else {
      ConsSplit(s);
      SortDescFacts(s[1..]);
      InsertBag(s[0], SortDesc(s[1..]));
      InsertDescending(s[0], SortDesc(s[1..]));
    }
    SameBagSameLength(SortDesc(s), s);
  }

  lemma SameBagSameLength<T>(a: seq<T>, b: seq<T>)
    requires multiset(a) == multiset(b)
    ensures |a| == |b|
  {
    assert |multiset(a)| == |multiset(b)|;
  }

  /** A descending arrangement of a bag of integers is unique. */
  lemma {:induction false} DescendingUnique(a: seq<int>, b: seq<int>)
    requires Descending(a) && Descending(b) && multiset(a) == multiset(b)
    ensures a == b
  {
    SameBagSameLength(a, b);
    if a == [] {
    } else {
      ConsSplit(a);
      ConsSplit(b);
      HeadBounds(a);
      HeadBounds(b);
      assert a[0] in multiset(b) && b[0] in multiset(a);
      assert a[0] in b && b[0] in a;
      assert a[0] == b[0];
      TailBags(a, b);
      DescendingUnique(a[1..], b[1..]);
    }
  }

  lemma TailBags<T>(a: seq<T>, b: seq<T>)
    requires a != [] && b != [] && a[0] == b[0]
    requires multiset(a) == multiset(b)
    ensures multiset(a[1..]) == multiset(b[1..])
  {
    ConsSplit(a);
    ConsSplit(b);
    assert multiset(a[1..]) == multiset(a) - multiset{a[0]};
    assert multiset(b[1..]) == multiset(b) - multiset{b[0]};
  }

  lemma SortIsCanonical(a: seq<int>, s: seq<int>)
    requires Descending(a) && multiset(a) == multiset(s)
    ensures a == SortDesc(s)
  {
    SortDescFacts(s);
    DescendingUnique(a, SortDesc(s));
  }

  // ---- Permuting entries permutes their scores ----

  lemma RemoveAt<T>(s: seq<T>, i: nat)
    requires i < |s|
    ensures multiset(s[..i] + s[i + 1..]) == multiset(s) - multiset{s[i]}
  {
    assert s == s[..i] + [s[i]] + s[i + 1..];
  }

  lemma MatchHead<T>(a: seq<T>, b: seq<T>) returns (j: nat)
    requires a != [] && multiset(a) == multiset(b)
    ensures j < |b| && b[j] == a[0]
    ensures multiset(a[1..]) == multiset(b[..j] + b[j + 1..])
  {
    assert a[0] in multiset(b);
    j :| 0 <= j < |b| && b[j] == a[0];
    ConsSplit(a);
    RemoveAt(b, j);
    assert multiset(a[1..]) == multiset(a) - multiset{a[0]};
  }

  function Mapped<A, B>(s: seq<A>, f: A -> B): (r: seq<B>)
    ensures |r| == |s| && forall i :: 0 <= i < |s| ==> r[i] == f(s[i])
  {
    seq(|s|, i requires 0 <= i < |s| => f(s[i]))
  }

  lemma MappedSplit<A, B>(s: seq<A>, f: A -> B, j: nat)
    requires j < |s|
    ensures multiset(Mapped(s, f)) == multiset{f(s[j])} + multiset(Mapped(s[..j] + s[j + 1..], f))
  {
    var r := Mapped(s, f);
    RemoveAt(r, j);
    assert Mapped(s[..j] + s[j + 1..], f) == r[..j] + r[j + 1..];
    assert r[j] in multiset(r);
  }

  lemma MappedHead<A, B>(s: seq<A>, f: A -> B)
    requires s != []
    ensures multiset(Mapped(s, f)) == multiset{f(s[0])} + multiset(Mapped(s[1..], f))
  {
    ConsSplit(Mapped(s, f));
    assert Mapped(s, f)[1..] == Mapped(s[1..], f);
  }

  /** Mapping a rearranged sequence rearranges the image. */
  lemma {:induction false} MappedPermuted<A, B>(a: seq<A>, b: seq<A>, f: A -> B)
    requires multiset(a) == multiset(b)
    ensures multiset(Mapped(a, f)) == multiset(Mapped(b, f))
  {
    SameBagSameLength(a, b);
    if a == [] {
    } else {
      var j := MatchHead(a, b);
      MappedPermuted(a[1..], b[..j] + b[j + 1..], f);
      MappedSplit(b, f, j);
      MappedHead(a, f);
    }
  }

  lemma PermutedScores(a: seq<ScoreEntry>, b: seq<ScoreEntry>)
    requires multiset(a) == multiset(b)
    ensures multiset(Scores(a)) == multiset(Scores(b))
  {
    var f := (e: ScoreEntry) => e.score;
    MappedPermuted(a, b, f);
    assert Scores(a) == Mapped(a, f) && Scores(b) == Mapped(b, f);
  }

  lemma SortPermuted(a: seq<ScoreEntry>, b: seq<ScoreEntry>)
    requires multiset(a) == multiset(b)
    ensures SortDesc(Scores(a)) == SortDesc(Scores(b))
  {
    PermutedScores(a, b);
    SortDescFacts(Scores(a));
    SortIsCanonical(SortDesc(Scores(a)), Scores(b));
  }

  /** Some sequence holds any bag. */
  lemma {:induction false} Listing(m: multiset<ScoreEntry>) returns (s: seq<ScoreEntry>)
    ensures multiset(s) == m
    decreases |m|
  {
    if m == multiset{} {
      s := [];
    } else {
      var x :| x in m;
      var t := Listing(m - multiset{x});
      s := t + [x];
    }
  }

  /** A descending list followed by smaller ones, sorted, is the canonical order of both. */
  lemma DescendingThenSorted(a: seq<int>, rest: seq<int>)
    requires Descending(a)
    requires forall x, y :: x in a && y in rest ==> x >= y
    ensures SortDesc(a + rest) == a + SortDesc(rest)
  {
    SortDescFacts(rest);
    var tail := SortDesc(rest);
    forall y | y in tail ensures y in rest {
      assert y in multiset(tail);
    }
    assert multiset(a + tail) == multiset(a + rest);
    DescendingAppend(a, tail);
    SortIsCanonical(a + tail, a + rest);
  }

  /** The entries left out of a top-k list. */
  lemma Complement(top: seq<ScoreEntry>, all: seq<ScoreEntry>, k: nat) returns (rest: seq<ScoreEntry>)
    requires TopEntries(top, all, k)
    ensures multiset(top + rest) == multiset(all)
    ensures forall x, y :: x in Scores(top) && y in Scores(rest) ==> x >= y
  {
    rest := Listing(multiset(all) - multiset(top));
    forall x, y | x in Scores(top) && y in Scores(rest) ensures x >= y {
      var i :| 0 <= i < |top| && top[i].score == x;
      var j :| 0 <= j < |rest| && rest[j].score == y;
      assert top[i] in top && rest[j] in multiset(rest);
    }
  }

  lemma SortSplit(top: seq<ScoreEntry>, rest: seq<ScoreEntry>)
    requires Descending(Scores(top))
    requires forall x, y :: x in Scores(top) && y in Scores(rest) ==> x >= y
    ensures SortDesc(Scores(top + rest)) == Scores(top) + SortDesc(Scores(rest))
  {
    assert Scores(top + rest) == Scores(top) + Scores(rest);
    DescendingThenSorted(Scores(top), Scores(rest));
  }

  /** The scores of a top-k list are the first k of the canonical order, however ties were broken. */
  lemma TopScores(top: seq<ScoreEntry>, all: seq<ScoreEntry>, k: nat)
    requires TopEntries(top, all, k)
    ensures |top| <= |SortDesc(Scores(all))| == |all|
    ensures Scores(top) == SortDesc(Scores(all))[..|top|]
  {
    var rest := Complement(top, all, k);
    SortPermuted(top + rest, all);
    SortSplit(top, rest);
    SortDescFacts(Scores(all));
  }

  /** Two top-k lists of permuted candidates show the same scores. */
  lemma TopScoresAgree(top: seq<ScoreEntry>, all: seq<ScoreEntry>, top': seq<ScoreEntry>, all': seq<ScoreEntry>, k: nat)
    requires TopEntries(top, all, k) && TopEntries(top', all', k)
    requires multiset(all) == multiset(all')
    ensures Scores(top) == Scores(top')
  {
    SameBagSameLength(all, all');
    TopScores(top, all, k);
    TopScores(top', all', k);
    SortPermuted(all, all');
  }

  // ---- Thresholds cut a descending list to a prefix ----

  function AtLeast(s: seq<int>, c: int): (r: seq<int>)
    ensures |r| <= |s|
  {
    if s == [] then [] else (if s[0] >= c then [s[0]] else []) + AtLeast(s[1..], c)
  }

  /** The longest prefix of s whose members are all at least c. */
  function PrefixAtLeast(s: seq<int>, c: int): (r: seq<int>)
    ensures r <= s
    ensures |r| < |s| ==> s[|r|] < c
  {
    if s == [] || s[0] < c then [] else [s[0]] + PrefixAtLeast(s[1..], c)
  }

  lemma {:induction false} AtLeastReach(s: seq<int>, c: int)
    ensures forall x :: x in AtLeast(s, c) ==> x >= c
  {
    if s == [] {
    } else {
      AtLeastReach(s[1..], c);
    }
  }

  lemma {:induction false} PrefixReach(s: seq<int>, c: int)
    ensures forall i :: 0 <= i < |PrefixAtLeast(s, c)| ==> s[i] >= c
  {
    if s == [] || s[0] < c {
    } else {
      PrefixReach(s[1..], c);
      forall i | 0 <= i < |PrefixAtLeast(s, c)| ensures s[i] >= c {
        assert i > 0 ==> s[i] == s[1..][i - 1];
      }
    }
  }

  lemma {:induction false} InsertAtLeast(x: int, s: seq<int>, c: int)
    requires Descending(s)
    ensures PrefixAtLeast(Insert(x, s), c) ==
            if x >= c then Insert(x, PrefixAtLeast(s, c)) else PrefixAtLeast(s, c)
  {
    if s == [] || x >= s[0] {
    } else {
      InsertAtLeast(x, s[1..], c);
    }
  }

  /** Filtering then sorting gives the prefix of the sorted whole above the threshold. */
  lemma {:induction false} SortAtLeast(s: seq<int>, c: int)
    ensures SortDesc(AtLeast(s, c)) == PrefixAtLeast(SortDesc(s), c)
  {
    if s == [] {
    } else {
      SortAtLeast(s[1..], c);
      SortDescFacts(s[1..]);
      InsertAtLeast(s[0], SortDesc(s[1..]), c);
      if s[0] >= c {
        assert AtLeast(s, c)[1..] == AtLeast(s[1..], c);
      } else {
        assert AtLeast(s, c) == AtLeast(s[1..], c);
      }
    }
  }

  /** Truncating to k before or after the threshold makes no difference. */
  lemma {:induction false} PrefixTruncated(s: seq<int>, c: int, k: nat)
    ensures var whole := PrefixAtLeast(s, c);
            PrefixAtLeast(s[..Min(|s|, k)], c) == whole[..Min(|whole|, k)]
  {
    if s == [] || k == 0 || s[0] < c {
    } else {
      var t := s[..Min(|s|, k)];
      assert t[1..] == s[1..][..Min(|s| - 1, k - 1)];
      PrefixTruncated(s[1..], c, k - 1);
    }
  }
}
