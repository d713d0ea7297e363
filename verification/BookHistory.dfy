/** Which orders the naive books hold after a run, and with which fields. */
module BookHistory {
  import opened Common
  import opened Naive
  import opened KotlinEngine
  import opened KotlinBook

  predicate RecordOf(n: NaiveOrder, evt: OrderEvent, at: int)
  {
    && n.qty == evt.requiredQty && n.deadline == evt.pbtDeadline && n.insertedAt == at
    && n.tpids == evt.tpids && n.binTags == evt.binTags
  }

  // ---- go-cgo ----

  /** The action neither ingests nor evicts order o, nor is it a cycle more than an hour after the time at. */
  predicate Spares(act: Action, at: int, o: nat)
  {
    && (act.Ingested? ==> act.evt.orderID != o)
    && (act.Evicted? ==> act.order != o)
    && (act.Cycle? ==> at <= 0 || act.now - at <= 3600)
  }

  /** Action i ingests order o, and everything after it spares that order. */
  ghost predicate LastIngest(acts: seq<Action>, i: int, o: nat)
  {
    && 0 <= i < |acts| && acts[i].Ingested? && acts[i].evt.orderID == o
    && forall j :: i < j < |acts| ==> Spares(acts[j], acts[i].at, o)
  }

  /** The record is that of an event ingested at a time; its score has a life of its own. */
  lemma {:induction false} HeldAsIngested(acts: seq<Action>, i: int, o: nat)
    requires LastIngest(acts, i, o)
    ensures o in NaiveRun(acts) && RecordOf(NaiveRun(acts)[o], acts[i].evt, acts[i].at)
  {
    var front := acts[..|acts| - 1];
    if i == |acts| - 1 {
    } else {
      assert Spares(acts[|acts| - 1], acts[i].at, o);
      assert LastIngest(front, i, o);
      HeldAsIngested(front, i, o);
    }
  }

  lemma {:induction false} HeldSince(acts: seq<Action>, o: nat) returns (i: int)
    requires o in NaiveRun(acts)
    ensures LastIngest(acts, i, o)
  {
    var front, last := acts[..|acts| - 1], acts[|acts| - 1];
    if last.Ingested? && last.evt.orderID == o {
      i := |acts| - 1;
    } else {
      i := HeldSince(front, o);
      HeldAsIngested(front, i, o);
      assert Spares(last, acts[i].at, o);
    }
  }

  /**
   * Which orders the book holds: those with an ingest that nothing later replaced, evicted or
   * outlived by more than an hour. It holds them as they were ingested.
   */
  lemma HeldExactly(acts: seq<Action>, o: nat)
    ensures o in NaiveRun(acts) <==> exists i :: LastIngest(acts, i, o)
    ensures forall i :: LastIngest(acts, i, o) ==> RecordOf(NaiveRun(acts)[o], acts[i].evt, acts[i].at)
  {
    if o in NaiveRun(acts) {
      var i := HeldSince(acts, o);
    }
    forall i | LastIngest(acts, i, o)
      ensures o in NaiveRun(acts) && RecordOf(NaiveRun(acts)[o], acts[i].evt, acts[i].at)
    {
      HeldAsIngested(acts, i, o);
    }
  }

  // ---- Kotlin ----

  /** The action neither ingests nor evicts order o, nor is it a cycle more than an hour after the time at. */
  predicate KSpares(act: KAction, at: int, o: nat)
  {
    && (act.KIngested? ==> act.evt.orderID != o)
    && (act.KEvicted? ==> act.order != o)
    && (act.KCycled? ==> at <= 0 || act.now - at <= 3600)
  }

  /** Action i ingests order o, and everything after it spares that order. */
  ghost predicate KLastIngest(acts: seq<KAction>, i: int, o: nat)
  {
    && 0 <= i < |acts| && acts[i].KIngested? && acts[i].evt.orderID == o && o < 300_000
    && forall j :: i < j < |acts| ==> KSpares(acts[j], acts[i].at, o)
  }

  /** The record is that of an event ingested at a time; its score has a life of its own. */
  lemma {:induction false} KHeldAsIngested(acts: seq<KAction>, i: int, o: nat)
    requires KLastIngest(acts, i, o)
    ensures o in KBook(acts) && RecordOf(KBook(acts)[o], acts[i].evt, acts[i].at)
  {
    var front := acts[..|acts| - 1];
    if i == |acts| - 1 {
    } else {
      assert KSpares(acts[|acts| - 1], acts[i].at, o);
      assert KLastIngest(front, i, o);
      KHeldAsIngested(front, i, o);
    }
  }

  lemma {:induction false} KHeldSince(acts: seq<KAction>, o: nat) returns (i: int)
    requires o in KBook(acts)
    ensures KLastIngest(acts, i, o)
  {
    var front, last := acts[..|acts| - 1], acts[|acts| - 1];
    if last.KIngested? && last.evt.orderID == o && o < NUM_ORDERS {
      i := |acts| - 1;
    } else {
      i := KHeldSince(front, o);
      KHeldAsIngested(front, i, o);
      assert KSpares(last, acts[i].at, o);
    }
  }

  /**
   * Which orders the book of a Kotlin run holds: those with an ingest that nothing later replaced, evicted or
   * outlived by more than an hour. It holds them as they were ingested.
   */
  lemma KHeldExactly(acts: seq<KAction>, o: nat)
    ensures o in KBook(acts) <==> exists i :: KLastIngest(acts, i, o)
    ensures forall i :: KLastIngest(acts, i, o) ==> RecordOf(KBook(acts)[o], acts[i].evt, acts[i].at)
  {
    if o in KBook(acts) {
      var i := KHeldSince(acts, o);
    }
    forall i | KLastIngest(acts, i, o)
      ensures o in KBook(acts) && RecordOf(KBook(acts)[o], acts[i].evt, acts[i].at)
    {
      KHeldAsIngested(acts, i, o);
    }
  }
}
