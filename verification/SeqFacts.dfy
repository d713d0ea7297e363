/** Removing and counting order ids in the index lists. */
module SeqFacts {
  /** Occurrences of x in s. */
  ghost function Count<T>(s: seq<T>, x: T): nat { multiset(s)[x] }

  function At(m: map<nat, seq<nat>>, k: nat): seq<nat> { if k in m then m[k] else [] }

  /** s with every member of gone filtered out, the rest in order. */
  function Minus(s: seq<nat>, gone: set<nat>): (r: seq<nat>)
    ensures |r| <= |s|
    ensures forall x :: x in r ==> x in s && x !in gone
  {
    if s == [] then []
    else
      var last := s[|s| - 1];
      var front := Minus(s[..|s| - 1], gone);
      if last in gone then front else front + [last]
  }

  /** s without its first occurrence of x. */
  function RemoveFirst(s: seq<nat>, x: nat): seq<nat>
  {
    if s == [] then [] else if s[0] == x then s[1..] else [s[0]] + RemoveFirst(s[1..], x)
  }

  lemma SnocSplit<T>(s: seq<T>)
    requires s != []
    ensures s == s[..|s| - 1] + [s[|s| - 1]]
    ensures multiset(s) == multiset(s[..|s| - 1]) + multiset{s[|s| - 1]}
  {
    assert s == s[..|s| - 1] + [s[|s| - 1]];
  }

  lemma ConsSplit<T>(s: seq<T>)
    requires s != []
    ensures s == [s[0]] + s[1..]
    ensures multiset(s) == multiset{s[0]} + multiset(s[1..])
  {
    assert s == [s[0]] + s[1..];
  }

  lemma CountConcat<T>(s: seq<T>, t: seq<T>, x: T)
    ensures Count(s + t, x) == Count(s, x) + Count(t, x)
  {
  }

  lemma {:induction false} MinusAppend(s: seq<nat>, t: seq<nat>, gone: set<nat>)
    ensures Minus(s + t, gone) == Minus(s, gone) + Minus(t, gone)
  {
    if t == [] {
      assert s + t == s;
    } else {
      var last := |t| - 1;
      assert (s + t)[..|s + t| - 1] == s + t[..last];
      MinusAppend(s, t[..last], gone);
    }
  }

  lemma {:induction false} MinusCount(s: seq<nat>, gone: set<nat>, x: nat)
    ensures Count(Minus(s, gone), x) == if x in gone then 0 else Count(s, x)
  {
    if s == [] {
    } else {
      SnocSplit(s);
      MinusCount(s[..|s| - 1], gone, x);
    }
  }

  lemma {:induction false} MinusMinus(s: seq<nat>, a: set<nat>, b: set<nat>)
    ensures Minus(Minus(s, a), b) == Minus(s, a + b)
  {
    if s == [] {
    } else {
      MinusMinus(s[..|s| - 1], a, b);
    }
  }

  lemma {:induction false} MinusNone(s: seq<nat>, gone: set<nat>)
    requires forall x :: x in s ==> x !in gone
    ensures Minus(s, gone) == s
  {
    if s == [] {
    } else {
      SnocSplit(s);
      MinusNone(s[..|s| - 1], gone);
    }
  }

  /** A kept entry stands behind exactly the kept entries that stood before it. */
  lemma MinusKeepsPlace(s: seq<nat>, gone: set<nat>, i: nat)
    requires i < |s| && s[i] !in gone
    ensures var front, r := Minus(s[..i], gone), Minus(s, gone);
            |front| < |r| && r[|front|] == s[i] && r[..|front|] == front
  {
    var before, rest := s[..i], s[i + 1..];
    assert s == (before + [s[i]]) + rest;
    MinusAppend(before + [s[i]], rest, gone);
    MinusAppend(before, [s[i]], gone);
    MinusNone([s[i]], gone);
  }

  lemma MinusAll(s: seq<nat>, gone: set<nat>)
    requires forall x :: x in s ==> x in gone
    ensures Minus(s, gone) == []
  {
    assert forall x :: x !in Minus(s, gone);
  }

  /** s after n first-occurrence deletions of x. */
  function RemoveTimes(s: seq<nat>, x: nat, n: nat): seq<nat>
    decreases n
  {
    if n == 0 then s else RemoveTimes(RemoveFirst(s, x), x, n - 1)
  }

  lemma {:induction false} RemoveFirstCount(s: seq<nat>, x: nat, y: nat)
    ensures Count(RemoveFirst(s, x), y) == if y == x && x in s then Count(s, y) - 1 else Count(s, y)
  {
    if s == [] {
    } else {
      ConsSplit(s);
      if s[0] != x {
        RemoveFirstCount(s[1..], x, y);
      }
    }
  }

  lemma {:induction false} MinusRemoveFirst(s: seq<nat>, x: nat)
    ensures Minus(RemoveFirst(s, x), {x}) == Minus(s, {x})
  {
    if s == [] {
    } else {
      ConsSplit(s);
      MinusAppend([s[0]], s[1..], {x});
      if s[0] != x {
        MinusRemoveFirst(s[1..], x);
        MinusAppend([s[0]], RemoveFirst(s[1..], x), {x});
      }
    }
  }

  /** Deleting the first occurrence once for each occurrence filters all of them out. */
  lemma {:induction false} RemoveTimesIsFilter(s: seq<nat>, x: nat, n: nat)
    requires n == Count(s, x)
    ensures RemoveTimes(s, x, n) == Minus(s, {x})
    decreases n
  {
    if n == 0 {
      assert x !in s;
      MinusNone(s, {x});
    } else {
      assert x in s;
      RemoveFirstCount(s, x, x);
      RemoveTimesIsFilter(RemoveFirst(s, x), x, n - 1);
      MinusRemoveFirst(s, x);
    }
  }

  /** The deletions may be counted from either end. */
  lemma {:induction false} RemoveTimesLast(s: seq<nat>, x: nat, n: nat)
    ensures RemoveTimes(s, x, n + 1) == RemoveFirst(RemoveTimes(s, x, n), x)
    decreases n
  {
    if n == 0 {
    } else {
      RemoveTimesLast(RemoveFirst(s, x), x, n - 1);
    }
  }

  // ---- Switched on and off ----

  ghost predicate NoneFrom<T>(acts: seq<T>, i: nat, act: T)
  {
    forall j :: i <= j < |acts| ==> acts[j] != act
  }

  /** Switched on, or on to begin with, and not switched off since. */
  ghost predicate LeftOn<T>(acts: seq<T>, on: T, off: T, initially: bool)
  {
    || (exists i: nat :: i < |acts| && acts[i] == on && NoneFrom(acts, i, off))
    || (initially && NoneFrom(acts, 0, off))
  }

  lemma NoneFromNext<T>(acts: seq<T>, i: nat, act: T)
    requires i < |acts|
    ensures NoneFrom(acts, i, act) <==> acts[|acts| - 1] != act && NoneFrom(acts[..|acts| - 1], i, act)
  {
    var front := acts[..|acts| - 1];
    if NoneFrom(acts, i, act) {
      forall j | i <= j < |front| ensures front[j] != act {
        assert acts[j] != act;
      }
    }
  }

  lemma LeftOnNext<T>(acts: seq<T>, on: T, off: T, initially: bool)
    requires acts != [] && on != off
    ensures LeftOn(acts, on, off, initially) <==>
            || acts[|acts| - 1] == on
            || (acts[|acts| - 1] != off && LeftOn(acts[..|acts| - 1], on, off, initially))
  {
    var front, last := acts[..|acts| - 1], acts[|acts| - 1];
    forall i: nat | i < |acts| ensures NoneFrom(acts, i, off) <==> last != off && NoneFrom(front, i, off) {
      NoneFromNext(acts, i, off);
    }
    if last == on {
      assert NoneFrom(acts, |acts| - 1, off);
    }
    if LeftOn(front, on, off, initially) && last != off {
      if i: nat :| i < |front| && front[i] == on && NoneFrom(front, i, off) {
        assert acts[i] == on && NoneFrom(acts, i, off);
      }
    }
    if LeftOn(acts, on, off, initially) && last != on {
      if i: nat :| i < |acts| && acts[i] == on && NoneFrom(acts, i, off) {
        assert front[i] == on;
      }
    }
  }
}
