/** The inverted index of the Go engines: four maps of lists updated in place. */
module GoIndex {
  import opened SeqFacts
  import opened Index

  /** s without its first occurrence of v, found by a forward scan. */
  method RemoveUint32(s: seq<nat>, v: nat) returns (r: seq<nat>)
    ensures r == RemoveFirst(s, v)
    ensures v !in s ==> r == s
    ensures v in s ==> exists i: nat :: i < |s| && s[i] == v && v !in s[..i] && r == s[..i] + s[i + 1..]
  {
    for i := 0 to |s|
      invariant v !in s[..i]
      invariant RemoveFirst(s, v) == s[..i] + RemoveFirst(s[i..], v)
    {
      if s[i] == v {
        return s[..i] + s[i + 1..];
      }
    }
    return s;
  }

  class InvertedIndexes {
    var TPIDToOrders: map<nat, seq<nat>>
    var BinTagToOrders: map<nat, seq<nat>>
    var reverseTPID: map<nat, seq<nat>>
    var reverseBinTag: map<nat, seq<nat>>

    function TPIDs(): Half reads this { Half(TPIDToOrders, reverseTPID) }

    function BinTags(): Half reads this { Half(BinTagToOrders, reverseBinTag) }

    ghost predicate Valid() reads this { Consistent(TPIDs()) && Consistent(BinTags()) }

    constructor ()
      ensures Valid() && TPIDs() == EMPTY_HALF && BinTags() == EMPTY_HALF
    {
      TPIDToOrders, BinTagToOrders, reverseTPID, reverseBinTag := map[], map[], map[], map[];
    }

    /** Removes orderID through the reverse lists, one first-occurrence deletion per entry. */
    method RemoveOrder(orderID: nat)
      requires Valid()
      modifies this
      ensures Valid()
      ensures TPIDs() == Drop(old(TPIDs()), {orderID})
      ensures BinTags() == Drop(old(BinTags()), {orderID})
    {
      TPIDToOrders := RemoveEntries(TPIDToOrders, At(reverseTPID, orderID), orderID);
      UnlinkedIsDropped(old(TPIDs()), TPIDToOrders, orderID);
      reverseTPID := reverseTPID - {orderID};
      BinTagToOrders := RemoveEntries(BinTagToOrders, At(reverseBinTag, orderID), orderID);
      UnlinkedIsDropped(old(BinTags()), BinTagToOrders, orderID);
      reverseBinTag := reverseBinTag - {orderID};
      DropConsistent(old(TPIDs()), {orderID});
      DropConsistent(old(BinTags()), {orderID});
    }

    method AddOrder(orderID: nat, tpids: seq<nat>, binTagIDs: seq<nat>)
      requires Valid()
      modifies this
      ensures Valid()
      ensures TPIDs() == Add(old(TPIDs()), orderID, tpids)
      ensures BinTags() == Add(old(BinTags()), orderID, binTagIDs)
    {
      RemoveOrder(orderID);
      TPIDToOrders := AppendEntries(TPIDToOrders, tpids, orderID);
      BinTagToOrders := AppendEntries(BinTagToOrders, binTagIDs, orderID);
      if |tpids| > 0 {
        reverseTPID := reverseTPID[orderID := tpids];
      }
      if |binTagIDs| > 0 {
        reverseBinTag := reverseBinTag[orderID := binTagIDs];
      }
      AddConsistent(old(TPIDs()), orderID, tpids);
      AddConsistent(old(BinTags()), orderID, binTagIDs);
    }
  }

  /** fwd with the key's list replaced, the key deleted when the list is empty. */
  function WithList(fwd: map<nat, seq<nat>>, key: nat, list: seq<nat>): (r: map<nat, seq<nat>>)
    ensures forall k: nat :: At(r, k) == if k == key then list else At(fwd, k)
    ensures NoEmptyLists(fwd) ==> NoEmptyLists(r)
  {
    if |list| == 0 then fwd - {key} else fwd[key := list]
  }

  /** The loop over one reverse list: each step shortens one forward list or deletes it. */
  method RemoveEntries(fwd: map<nat, seq<nat>>, keys: seq<nat>, orderID: nat) returns (r: map<nat, seq<nat>>)
    requires NoEmptyLists(fwd)
    ensures NoEmptyLists(r)
    ensures forall k: nat :: At(r, k) == RemoveTimes(At(fwd, k), orderID, Count(keys, k))
  {
    r := fwd;
    for i := 0 to |keys|
      invariant NoEmptyLists(r)
      invariant forall k: nat :: At(r, k) == RemoveTimes(At(fwd, k), orderID, Count(keys[..i], k))
    {
      var key := keys[i];
      var list := RemoveUint32(At(r, key), orderID);
      OneMoreRemoval(fwd, r, WithList(r, key, list), keys[..i], key, orderID);
      r := WithList(r, key, list);
      assert keys[..i + 1] == keys[..i] + [key];
    }
    assert keys[..|keys|] == keys;
  }

  lemma OneMoreRemoval(fwd: map<nat, seq<nat>>, before: map<nat, seq<nat>>, after: map<nat, seq<nat>>,
                       done: seq<nat>, key: nat, o: nat)
    requires forall k: nat :: At(before, k) == RemoveTimes(At(fwd, k), o, Count(done, k))
    requires forall k: nat :: At(after, k) == if k == key then RemoveFirst(At(before, k), o) else At(before, k)
    ensures forall k: nat :: At(after, k) == RemoveTimes(At(fwd, k), o, Count(done + [key], k))
  {
    forall k: nat ensures At(after, k) == RemoveTimes(At(fwd, k), o, Count(done + [key], k)) {
      RemoveTimesLast(At(fwd, k), o, Count(done, k));
    }
  }

  /** In a consistent index, one deletion per reverse entry filters the order out everywhere. */
  lemma UnlinkedIsDropped(h: Half, fwd: map<nat, seq<nat>>, o: nat)
    requires Consistent(h) && NoEmptyLists(fwd)
    requires forall k: nat :: At(fwd, k) == RemoveTimes(At(h.fwd, k), o, Count(At(h.rev, o), k))
    ensures fwd == Drop(h, {o}).fwd
  {
    forall k: nat ensures At(fwd, k) == At(Drop(h, {o}).fwd, k) {
      assert Count(At(h.fwd, k), o) == Count(At(h.rev, o), k);
      RemoveTimesIsFilter(At(h.fwd, k), o, Count(At(h.fwd, k), o));
    }
    HalfEqual(Half(fwd, h.rev), Half(Drop(h, {o}).fwd, h.rev));
  }
}
