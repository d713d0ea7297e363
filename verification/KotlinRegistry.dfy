/** The Kotlin registry as parallel arrays, with ingest, eviction and purge updating it in place. */
module KotlinRegistry {
  import opened Common
  import opened Index
  import opened GoIndex
  import opened GoState
  import opened GoLaws
  import opened FlatMatrix
  import Go = GoEngine
  import opened KotlinEngine
  import opened KotlinDrift

  /** One slot of the arrays against its metadata record; the arrays keep no id. */
  predicate SlotHolds(active: bool, qty: real, deadline: int, inserted: int, m: OrderMeta)
  {
    active == m.active && qty == m.requiredQty && deadline == m.pbtDeadline && inserted == m.insertedAt
  }

  ghost predicate ArraysHold(active: seq<bool>, qty: seq<real>, deadline: seq<int>, inserted: seq<int>,
                             meta: seq<OrderMeta>)
  {
    && |active| == |qty| == |deadline| == |inserted| == |meta| == NUM_ORDERS
    && forall i :: 0 <= i < NUM_ORDERS ==> SlotHolds(active[i], qty[i], deadline[i], inserted[i], meta[i])
  }

  class OrderRegistry {
    const active: array<bool>
    const requiredQty: array<real>
    const pbtDeadline: array<int>
    const insertedAtSecs: array<int>
    ghost var meta: seq<OrderMeta>   // the records the arrays stand for

    ghost predicate Valid()
      reads this, Repr()
    {
      && pbtDeadline != insertedAtSecs
      && ArraysHold(active[..], requiredQty[..], pbtDeadline[..], insertedAtSecs[..], meta)
    }

    ghost function Repr(): set<object> { {this, active, requiredQty, pbtDeadline, insertedAtSecs} }

    constructor ()
      ensures Valid() && meta == seq(NUM_ORDERS, _ => NO_ORDER)
      ensures fresh(active) && fresh(requiredQty) && fresh(pbtDeadline) && fresh(insertedAtSecs)
    {
      active := new bool[NUM_ORDERS](_ => false);
      requiredQty := new real[NUM_ORDERS](_ => 0.0);
      pbtDeadline := new int[NUM_ORDERS](_ => 0);
      insertedAtSecs := new int[NUM_ORDERS](_ => 0);
      meta := seq(NUM_ORDERS, _ => NO_ORDER);
    }

    /** Writes the four arrays; an id outside the range is ignored. */
    method Upsert(orderID: nat, qty: real, pbtDl: int, insertedAt: int)
      requires Valid()
      modifies Repr()
      ensures Valid()
      ensures meta == if orderID < NUM_ORDERS
                      then old(meta)[orderID := OrderMeta(orderID, qty, pbtDl, true, insertedAt)]
                      else old(meta)
      ensures active.Length == requiredQty.Length == pbtDeadline.Length == insertedAtSecs.Length == NUM_ORDERS
      ensures orderID < NUM_ORDERS ==>
                && active[..] == old(active[..])[orderID := true]
                && requiredQty[..] == old(requiredQty[..])[orderID := qty]
                && pbtDeadline[..] == old(pbtDeadline[..])[orderID := pbtDl]
                && insertedAtSecs[..] == old(insertedAtSecs[..])[orderID := insertedAt]
    {
      if orderID >= NUM_ORDERS {
        return;
      }
      active[orderID] := true;
      requiredQty[orderID] := qty;
      pbtDeadline[orderID] := pbtDl;
      insertedAtSecs[orderID] := insertedAt;
      meta := meta[orderID := OrderMeta(orderID, qty, pbtDl, true, insertedAt)];
    }

    /** Clears the two arrays an eviction touches. */
    method Deactivate(slot: nat)
      requires Valid() && slot < NUM_ORDERS
      modifies Repr()
      ensures Valid() && meta == old(meta)[slot := Retired(old(meta)[slot])]
      ensures active[..] == old(active[..])[slot := false] && insertedAtSecs[..] == old(insertedAtSecs[..])[slot := 0]
      ensures requiredQty[..] == old(requiredQty[..]) && pbtDeadline[..] == old(pbtDeadline[..])
    {
      active[slot] := false;
      insertedAtSecs[slot] := 0;
      meta := meta[slot := Retired(meta[slot])];
    }
  }

  /** Registry, index and matrix of one engine. */
  class Store {
    const registry: OrderRegistry
    const indexes: InvertedIndexes
    const matrix: Go.PPSMatrix

    ghost predicate Valid()
      reads registry, registry.Repr(), indexes
    {
      && registry.Valid() && indexes.Valid() && matrix.Valid()
      && matrix.data != registry.pbtDeadline && matrix.data != registry.insertedAtSecs
    }

    ghost function Repr(): set<object> { registry.Repr() + {indexes, matrix.data} }

    /** The engine value these objects hold, for a given pair list. */
    ghost function View(pairs: seq<PairInfo>): (s: State)
      requires Valid()
      reads registry, registry.Repr(), indexes, matrix.data
      ensures Shaped(s) && |s.rows| == matrix.NumPPS
    {
      State(registry.meta, indexes.TPIDs(), indexes.BinTags(), RowsOf(matrix.data[..], matrix.NumPPS), pairs)
    }

    constructor (numPPS: nat)
      ensures Valid() && forall pairs :: View(pairs) == Init(numPPS, pairs)
      ensures fresh(Repr())
    {
      registry := new OrderRegistry();
      indexes := new InvertedIndexes();
      matrix := new Go.PPSMatrix(numPPS);
      new;
      ZeroRows(numPPS);
    }

    method Retire(slot: nat, ghost pairs: seq<PairInfo>)
      requires Valid() && slot < NUM_ORDERS
      modifies Repr()
      ensures Valid() && View(pairs) == EvictSet(old(View(pairs)), {slot})
    {
      Go.RetireOne(View(pairs), slot);
      registry.Deactivate(slot);
      indexes.RemoveOrder(slot);
      matrix.EvictOrder(slot);
    }

    /** Evicts an active order; any other id is ignored. */
    method EvictOrder(orderID: nat, ghost pairs: seq<PairInfo>)
      requires Valid()
      modifies Repr()
      ensures Valid() && View(pairs) == Evict(old(View(pairs)), orderID)
    {
      if orderID >= NUM_ORDERS || !registry.active[orderID] {
        return;
      }
      Retire(orderID, pairs);
    }

    /** One sweep over the arrays, evicting those whose time to live has passed. */
    method PurgeExpired(nowSecs: int, ghost pairs: seq<PairInfo>)
      requires Valid()
      modifies Repr()
      ensures Valid() && View(pairs) == Purge(old(View(pairs)), nowSecs)
    {
      ghost var was := View(pairs);
      EvictNone(was);
      assert Go.ExpiredBelow(was, nowSecs, 0) == {};
      for i := 0 to NUM_ORDERS
        invariant Valid() && View(pairs) == EvictSet(was, Go.ExpiredBelow(was, nowSecs, i))
      {
        ghost var gone := Go.ExpiredBelow(was, nowSecs, i);
        assert registry.meta[i] == was.meta[i];
        var ins := registry.insertedAtSecs[i];
        if registry.active[i] && ins > 0 && nowSecs - ins > ORDER_TTL {
          Retire(i, pairs);
          EvictTwice(was, gone, {i});
          assert Go.ExpiredBelow(was, nowSecs, i + 1) == gone + {i};
        } else {
          assert Go.ExpiredBelow(was, nowSecs, i + 1) == gone;
        }
      }
      assert Go.ExpiredBelow(was, nowSecs, NUM_ORDERS) == Expired(was, nowSecs);
    }

    /** Stale index entries go, then the order is recorded and indexed. */
    method Register(evt: OrderEvent, nowSecs: int)
      requires Valid() && evt.orderID < NUM_ORDERS
      modifies registry.Repr(), indexes
      ensures Valid()
      ensures registry.meta == old(registry.meta)[evt.orderID :=
                OrderMeta(evt.orderID, evt.requiredQty, evt.pbtDeadline, true, nowSecs)]
      ensures indexes.TPIDs() == Add(old(indexes.TPIDs()), evt.orderID, evt.tpids)
      ensures indexes.BinTags() == Add(old(indexes.BinTags()), evt.orderID, evt.binTags)
    {
      var oid := evt.orderID;
      AddAfterDrop(indexes.TPIDs(), oid, evt.tpids);
      AddAfterDrop(indexes.BinTags(), oid, evt.binTags);
      if registry.active[oid] {
        indexes.RemoveOrder(oid);
      }
      registry.Upsert(oid, evt.requiredQty, evt.pbtDeadline, nowSecs);
      indexes.AddOrder(oid, evt.tpids, evt.binTags);
    }

    /** Applies an order event to registry, index and every row; an id outside the range is ignored. */
    method IngestOrder(evt: OrderEvent, nowSecs: int, ghost pairs: seq<PairInfo>)
      requires Valid()
      modifies Repr()
      ensures Valid() && View(pairs) == KIngest(old(View(pairs)), evt, nowSecs)
      ensures evt.orderID < NUM_ORDERS ==> forall p :: 0 <= p < |View(pairs).rows| ==>
                ScaledBase(View(pairs).rows[p][evt.orderID], evt.baseScore, -32768, 32767)
    {
      KBaseIsScaled(evt);
      if evt.orderID >= NUM_ORDERS {
        return;
      }
      Register(evt, nowSecs);
      matrix.WriteColumn(evt.orderID, KBase(evt));
    }
  }
}
