/** One direction of the inverted index with its reverse map, as values. */
module Index {
  import opened SeqFacts

  /** fwd: key -> order ids, rev: order id -> keys. */
  datatype Half = Half(fwd: map<nat, seq<nat>>, rev: map<nat, seq<nat>>)

  const EMPTY_HALF: Half := Half(map[], map[])

  ghost predicate NoEmptyLists(m: map<nat, seq<nat>>) { forall k :: k in m ==> m[k] != [] }

  /** Each order stands in a key's list as often as the key stands in the order's own list. */
  ghost predicate Mirrored(h: Half)
  {
    forall k: nat, o: nat :: Count(At(h.fwd, k), o) == Count(At(h.rev, o), k)
  }

  ghost predicate Consistent(h: Half)
  {
    Mirrored(h) && NoEmptyLists(h.fwd) && NoEmptyLists(h.rev)
  }

  /** The lists of fwd with every order of gone filtered out, and no list left empty. */
  function Filtered(fwd: map<nat, seq<nat>>, gone: set<nat>): (r: map<nat, seq<nat>>)
    ensures forall k :: At(r, k) == Minus(At(fwd, k), gone)
    ensures NoEmptyLists(r)
  {
    map k | k in fwd && Minus(fwd[k], gone) != [] :: Minus(fwd[k], gone)
  }

  /** The index without the orders of gone. */
  function Drop(h: Half, gone: set<nat>): Half { Half(Filtered(h.fwd, gone), h.rev - gone) }

  function Repeat<T>(o: T, n: nat): (r: seq<T>)
    ensures |r| == n && forall x :: x in r ==> x == o
  {
    if n == 0 then [] else Repeat(o, n - 1) + [o]
  }

  lemma {:induction false} RepeatCount<T>(o: T, n: nat, x: T)
    ensures Count(Repeat(o, n), x) == if x == o then n else 0
  {
    if n == 0 {
    } else {
      RepeatCount(o, n - 1, x);
    }
  }

  /** fwd with o appended to the list of each key in turn. */
  function Appended(fwd: map<nat, seq<nat>>, keys: seq<nat>, o: nat): (r: map<nat, seq<nat>>)
  {
    if keys == [] then fwd
    else
      var f := Appended(fwd, keys[..|keys| - 1], o);
      var k := keys[|keys| - 1];
      f[k := At(f, k) + [o]]
  }

  /** The append loop of both languages; an absent key starts with an empty list. */
  method AppendEntries(fwd: map<nat, seq<nat>>, keys: seq<nat>, orderID: nat) returns (r: map<nat, seq<nat>>)
    ensures r == Appended(fwd, keys, orderID)
  {
    r := fwd;
    for i := 0 to |keys|
      invariant r == Appended(fwd, keys[..i], orderID)
    {
      assert keys[..i + 1][..i] == keys[..i];
      r := r[keys[i] := At(r, keys[i]) + [orderID]];
    }
    assert keys[..|keys|] == keys;
  }

  lemma CountSnoc(keys: seq<nat>, last: nat, k: nat)
    ensures Count(keys + [last], k) == Count(keys, k) + if k == last then 1 else 0
  {
  }

  lemma {:induction false} AppendedAt(fwd: map<nat, seq<nat>>, keys: seq<nat>, o: nat, k: nat)
    ensures At(Appended(fwd, keys, o), k) == At(fwd, k) + Repeat(o, Count(keys, k))
  {
    if keys == [] {
      assert At(fwd, k) + [] == At(fwd, k);
    } else {
      var front, last := keys[..|keys| - 1], keys[|keys| - 1];
      AppendedAt(fwd, front, o, k);
      assert keys == front + [last];
      CountSnoc(front, last, k);
      if k == last {
        var joined := Repeat(o, Count(front, k));
        assert Repeat(o, Count(keys, k)) == joined + [o];
        assert (At(fwd, k) + joined) + [o] == At(fwd, k) + (joined + [o]);
      }
    }
  }

  lemma {:induction false} AppendedNoEmpty(fwd: map<nat, seq<nat>>, keys: seq<nat>, o: nat)
    requires NoEmptyLists(fwd)
    ensures NoEmptyLists(Appended(fwd, keys, o))
  {
    if keys == [] {
    } else {
      AppendedNoEmpty(fwd, keys[..|keys| - 1], o);
    }
  }

  /** Registering o under keys: its stale entries go first, then it joins the end of each list. */
  function Add(h: Half, o: nat, keys: seq<nat>): Half
  {
    var d := Drop(h, {o});
    Half(Appended(d.fwd, keys, o), if keys == [] then d.rev else d.rev[o := keys])
  }

  /** The list of a key after Add: the others in order, then o once per occurrence of the key. */
  lemma AddAt(h: Half, o: nat, keys: seq<nat>, k: nat)
    ensures At(Add(h, o, keys).fwd, k) == Minus(At(h.fwd, k), {o}) + Repeat(o, Count(keys, k))
    ensures At(Add(h, o, keys).rev, k) == if k == o then keys else At(h.rev, k)
  {
    AppendedAt(Drop(h, {o}).fwd, keys, o, k);
  }

  lemma DropConsistent(h: Half, gone: set<nat>)
    requires Consistent(h)
    ensures Consistent(Drop(h, gone))
  {
    forall k: nat, o: nat
      ensures Count(At(Drop(h, gone).fwd, k), o) == Count(At(Drop(h, gone).rev, o), k)
    {
      MinusCount(At(h.fwd, k), gone, o);
      assert Count(At(h.fwd, k), o) == Count(At(h.rev, o), k);
    }
  }

  lemma AddConsistent(h: Half, o: nat, keys: seq<nat>)
    requires Consistent(h)
    ensures Consistent(Add(h, o, keys))
  {
    var a := Add(h, o, keys);
    forall k: nat, x: nat
      ensures Count(At(a.fwd, k), x) == Count(At(a.rev, x), k)
    {
      AddAt(h, o, keys, k);
      AddAt(h, o, keys, x);
      MinusCount(At(h.fwd, k), {o}, x);
      RepeatCount(o, Count(keys, k), x);
      assert Count(At(h.fwd, k), x) == Count(At(h.rev, x), k);
    }
    AppendedNoEmpty(Drop(h, {o}).fwd, keys, o);
  }

  // ---- Laws of the operations ----

  lemma HalfEqual(a: Half, b: Half)
    requires NoEmptyLists(a.fwd) && NoEmptyLists(b.fwd) && a.rev == b.rev
    requires forall k: nat :: At(a.fwd, k) == At(b.fwd, k)
    ensures a == b
  {
    forall k: nat ensures k in a.fwd <==> k in b.fwd {
      assert At(a.fwd, k) == At(b.fwd, k);
    }
    forall k | k in a.fwd ensures a.fwd[k] == b.fwd[k] {
      assert At(a.fwd, k) == At(b.fwd, k);
    }
  }

  lemma DropDrop(h: Half, a: set<nat>, b: set<nat>)
    ensures Drop(Drop(h, a), b) == Drop(h, a + b)
  {
    forall k: nat ensures At(Drop(Drop(h, a), b).fwd, k) == At(Drop(h, a + b).fwd, k) {
      MinusMinus(At(h.fwd, k), a, b);
    }
    assert h.rev - a - b == h.rev - (a + b);
    HalfEqual(Drop(Drop(h, a), b), Drop(h, a + b));
  }

  /** Dropping an order before adding it makes no difference. */
  lemma AddAfterDrop(h: Half, o: nat, keys: seq<nat>)
    ensures Add(Drop(h, {o}), o, keys) == Add(h, o, keys)
  {
    DropDrop(h, {o}, {o});
    assert {o} + {o} == {o};
  }

  /** Orders the index does not know can be dropped freely. */
  lemma DropAbsent(h: Half, gone: set<nat>)
    requires Consistent(h)
    requires forall o :: o in gone ==> At(h.rev, o) == []
    ensures Drop(h, gone) == h
  {
    forall k: nat ensures At(Drop(h, gone).fwd, k) == At(h.fwd, k) {
      forall o | o in At(h.fwd, k) ensures o !in gone {
        assert Count(At(h.fwd, k), o) == Count(At(h.rev, o), k);
      }
      MinusNone(At(h.fwd, k), gone);
    }
    assert h.rev - gone == h.rev;
    HalfEqual(Drop(h, gone), h);
  }

  /** Removing an order undoes adding it, except that its earlier entries are gone too. */
  lemma DropAfterAdd(h: Half, o: nat, keys: seq<nat>)
    ensures Drop(Add(h, o, keys), {o}) == Drop(h, {o})
  {
    forall k: nat ensures At(Drop(Add(h, o, keys), {o}).fwd, k) == At(Drop(h, {o}).fwd, k) {
      AddAt(h, o, keys, k);
      MinusAppend(Minus(At(h.fwd, k), {o}), Repeat(o, Count(keys, k)), {o});
      MinusMinus(At(h.fwd, k), {o}, {o});
      MinusAll(Repeat(o, Count(keys, k)), {o});
      assert {o} + {o} == {o};
    }
    assert Drop(Add(h, o, keys), {o}).rev == h.rev - {o};
    HalfEqual(Drop(Add(h, o, keys), {o}), Drop(h, {o}));
  }

  /** Repeating a registration changes nothing. */
  lemma AddAgain(h: Half, o: nat, keys: seq<nat>)
    ensures Add(Add(h, o, keys), o, keys) == Add(h, o, keys)
  {
    DropAfterAdd(h, o, keys);
  }
}
