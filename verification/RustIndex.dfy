/** The Rust inverted index, which filters whole lists, and its equality with the Go index. */
module RustIndex {
  import opened SeqFacts
  import opened Index

  /** fwd with o filtered out of the lists of the given keys; no list is deleted. */
  function Retained(fwd: map<nat, seq<nat>>, keys: seq<nat>, o: nat): map<nat, seq<nat>>
  {
    map k | k in fwd :: if k in keys then Minus(fwd[k], {o}) else fwd[k]
  }

  /** remove_order: the lists of the order's own keys are filtered; nothing happens to an unknown order. */
  function RustDrop(h: Half, o: nat): Half
  {
    if o in h.rev then Half(Retained(h.fwd, h.rev[o], o), h.rev - {o}) else h
  }

  /** add_order: the reverse entry is stored even when there are no keys. */
  function RustAdd(h: Half, o: nat, keys: seq<nat>): Half
  {
    var d := RustDrop(h, o);
    Half(Appended(d.fwd, keys, o), d.rev[o := keys])
  }

  class RustIndexes {
    var tpidToOrders: map<nat, seq<nat>>
    var binTagToOrders: map<nat, seq<nat>>
    var orderTPIDs: map<nat, seq<nat>>
    var orderBinTags: map<nat, seq<nat>>

    function TPIDs(): Half reads this { Half(tpidToOrders, orderTPIDs) }

    function BinTags(): Half reads this { Half(binTagToOrders, orderBinTags) }

    constructor ()
      ensures TPIDs() == EMPTY_HALF && BinTags() == EMPTY_HALF
    {
      tpidToOrders, binTagToOrders, orderTPIDs, orderBinTags := map[], map[], map[], map[];
    }

    method RemoveOrder(orderID: nat)
      modifies this
      ensures TPIDs() == RustDrop(old(TPIDs()), orderID)
      ensures BinTags() == RustDrop(old(BinTags()), orderID)
    {
      if orderID in orderTPIDs {
        tpidToOrders := RetainAll(tpidToOrders, orderTPIDs[orderID], orderID);
        orderTPIDs := orderTPIDs - {orderID};
      }
      if orderID in orderBinTags {
        binTagToOrders := RetainAll(binTagToOrders, orderBinTags[orderID], orderID);
        orderBinTags := orderBinTags - {orderID};
      }
    }

    method AddOrder(orderID: nat, tpids: seq<nat>, binTagIDs: seq<nat>)
      modifies this
      ensures TPIDs() == RustAdd(old(TPIDs()), orderID, tpids)
      ensures BinTags() == RustAdd(old(BinTags()), orderID, binTagIDs)
    {
      RemoveOrder(orderID);
      tpidToOrders := AppendEntries(tpidToOrders, tpids, orderID);
      binTagToOrders := AppendEntries(binTagToOrders, binTagIDs, orderID);
      orderTPIDs := orderTPIDs[orderID := tpids];
      orderBinTags := orderBinTags[orderID := binTagIDs];
    }
  }

  /** One retain per entry; a repeated key filters an already filtered list. */
  method RetainAll(fwd: map<nat, seq<nat>>, keys: seq<nat>, orderID: nat) returns (r: map<nat, seq<nat>>)
    ensures r == Retained(fwd, keys, orderID)
  {
    r := fwd;
    for i := 0 to |keys|
      invariant r.Keys == fwd.Keys
      invariant forall k :: k in fwd ==> r[k] == if k in keys[..i] then Minus(fwd[k], {orderID}) else fwd[k]
    {
      var key := keys[i];
      assert keys[..i + 1] == keys[..i] + [key];
      if key in r {
        MinusMinus(fwd[key], {orderID}, {orderID});
        assert {orderID} + {orderID} == {orderID};
        r := r[key := Minus(r[key], {orderID})];
      }
    }
    assert keys[..|keys|] == keys;
  }

  // ---- The two indexes over the same history ----

  datatype IndexOp = AddOp(order: nat, tpids: seq<nat>, binTags: seq<nat>) | RemoveOp(order: nat)

  /** The keys an operation registers in one direction of the index. */
  function KeysOf(op: IndexOp, binTagSide: bool): seq<nat>
    requires op.AddOp?
  {
    if binTagSide then op.binTags else op.tpids
  }

  function GoRun(ops: seq<IndexOp>, binTagSide: bool): Half
  {
    if ops == [] then EMPTY_HALF
    else
      var h := GoRun(ops[..|ops| - 1], binTagSide);
      var op := ops[|ops| - 1];
      if op.AddOp? then Add(h, op.order, KeysOf(op, binTagSide)) else Drop(h, {op.order})
  }

  function RustRun(ops: seq<IndexOp>, binTagSide: bool): Half
  {
    if ops == [] then EMPTY_HALF
    else
      var h := RustRun(ops[..|ops| - 1], binTagSide);
      var op := ops[|ops| - 1];
      if op.AddOp? then RustAdd(h, op.order, KeysOf(op, binTagSide)) else RustDrop(h, op.order)
  }

  /** Equal lists under every key, counting an absent key as an empty list. */
  ghost predicate SameLists(g: Half, r: Half)
  {
    && (forall k: nat :: At(g.fwd, k) == At(r.fwd, k))
    && (forall o: nat :: At(g.rev, o) == At(r.rev, o))
  }

  lemma DropAgrees(g: Half, r: Half, o: nat)
    requires Consistent(g) && SameLists(g, r)
    ensures SameLists(Drop(g, {o}), RustDrop(r, o))
  {
    forall k: nat ensures At(Drop(g, {o}).fwd, k) == At(RustDrop(r, o).fwd, k) {
      assert Count(At(g.fwd, k), o) == Count(At(g.rev, o), k);
      assert At(g.rev, o) == At(r.rev, o);
      if k !in At(g.rev, o) {
        MinusNone(At(g.fwd, k), {o});
      }
    }
    forall x: nat ensures At(Drop(g, {o}).rev, x) == At(RustDrop(r, o).rev, x) {
      assert At(g.rev, x) == At(r.rev, x);
    }
  }

  lemma AddAgrees(g: Half, r: Half, o: nat, keys: seq<nat>)
    requires Consistent(g) && SameLists(g, r)
    ensures SameLists(Add(g, o, keys), RustAdd(r, o, keys))
  {
    DropAgrees(g, r, o);
    forall k: nat ensures At(Add(g, o, keys).fwd, k) == At(RustAdd(r, o, keys).fwd, k) {
      AppendedAt(Drop(g, {o}).fwd, keys, o, k);
      AppendedAt(RustDrop(r, o).fwd, keys, o, k);
    }
    forall x: nat ensures At(Add(g, o, keys).rev, x) == At(RustAdd(r, o, keys).rev, x) {
      assert At(Drop(g, {o}).rev, x) == At(RustDrop(r, o).rev, x);
    }
  }

  /**
   * After any sequence of additions and removals the two languages hold the same lists, in the same
   * order, even for orders that list a key twice; Go lacks exactly the keys Rust maps to nothing.
   */
  lemma {:induction false} GoAndRustAgree(ops: seq<IndexOp>, binTagSide: bool)
    ensures Consistent(GoRun(ops, binTagSide))
    ensures SameLists(GoRun(ops, binTagSide), RustRun(ops, binTagSide))
    ensures forall k: nat :: k in GoRun(ops, binTagSide).fwd <==> At(RustRun(ops, binTagSide).fwd, k) != []
  {
    if ops != [] {
      var front, op := ops[..|ops| - 1], ops[|ops| - 1];
      var g, r := GoRun(front, binTagSide), RustRun(front, binTagSide);
      GoAndRustAgree(front, binTagSide);
      if op.AddOp? {
        AddConsistent(g, op.order, KeysOf(op, binTagSide));
        AddAgrees(g, r, op.order, KeysOf(op, binTagSide));
      } else {
        DropConsistent(g, {op.order});
        DropAgrees(g, r, op.order);
      }
    }
    var g, r := GoRun(ops, binTagSide), RustRun(ops, binTagSide);
    forall k: nat ensures k in g.fwd <==> At(r.fwd, k) != [] {
      assert At(g.fwd, k) == At(r.fwd, k);
    }
  }
}
