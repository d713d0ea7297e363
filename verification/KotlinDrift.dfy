/** Kotlin's integer scores against the exact contribution-weighted ones. */
module KotlinDrift {
  import opened Common
  import opened GoState
  import opened Naive
  import opened Drift
  import opened KotlinEngine
  import opened KotlinBook

  /** What a Kotlin ingest writes. */
  lemma KBaseIsScaled(evt: OrderEvent)
    ensures ScaledBase(KBase(evt), evt.baseScore, -32768, 32767)
  {
    assert evt.baseScore * SCORE_SCALE == 100.0 * evt.baseScore;
  }

  /** Every change of a contribution, in hundredths, fits 32 bits. */
  ghost predicate Small(updates: seq<TPIDUpdate>)
  {
    forall u :: u in updates ==> -2147483648.0 < 100.0 * (u.newContrib - u.oldContrib) < 2147483648.0
  }

  lemma KDiffTracks(updates: seq<TPIDUpdate>)
    requires Small(updates)
    ensures Tracks(KDiff, updates)
  {
    forall u | u in updates ensures Abs(KDiff(u) as real - 100.0 * (u.newContrib - u.oldContrib)) < 1.0 {
      assert (u.newContrib - u.oldContrib) * SCORE_SCALE == 100.0 * (u.newContrib - u.oldContrib);
    }
  }

  /** A change too large for 32 bits counts as the largest or the least integer. */
  lemma HugeChange(u: TPIDUpdate)
    ensures 100.0 * (u.newContrib - u.oldContrib) >= 2147483647.0 ==> KDiff(u) == 0x7FFF_FFFF
    ensures 100.0 * (u.newContrib - u.oldContrib) <= -2147483648.0 ==> KDiff(u) == -0x8000_0000
  {
    assert (u.newContrib - u.oldContrib) * SCORE_SCALE == 100.0 * (u.newContrib - u.oldContrib);
  }

  // ---- One cycle ----

  /** An exact value held inside the 16-bit range. */
  function Held(x: real): real { if x > 32767.0 then 32767.0 else if x < -32768.0 then -32768.0 else x }

  /** Within the hits of the exact value held in range, and at the end of the range when that lies beyond by as much. */
  ghost predicate HeldNear(score: int, exact: real, hits: nat)
  {
    && Abs(score as real - Held(exact)) <= hits as real
    && (exact >= (32767 + hits) as real ==> score == 32767)
    && (exact <= (-32768 - hits) as real ==> score == -32768)
  }

  /** The score plus 100 times the exact change of the order's contributions. */
  ghost function ExactScore(score: int, tpids: seq<nat>, updates: seq<TPIDUpdate>): real
  {
    score as real + 100.0 * ExactChange(tpids, updates)
  }

  /** That sum fits 32 bits, with one to spare for each hit. */
  ghost predicate SumFits(score: int, tpids: seq<nat>, updates: seq<TPIDUpdate>)
  {
    Abs(ExactScore(score, tpids, updates)) + Hits(tpids, updates) as real < 2147483648.0
  }

  /** What one cycle makes of a score, whether or not it saturates, as long as the sum fits 32 bits. */
  lemma CycleScore(acts: seq<KAction>, updates: seq<TPIDUpdate>, now: int, o: nat)
    requires o in KBook(acts) && o in KBook(acts + [KCycled(updates, now)])
    requires Small(updates) && SumFits(KBook(acts)[o].score, KBook(acts)[o].tpids, updates)
    ensures HeldNear(KBook(acts + [KCycled(updates, now)])[o].score,
                     ExactScore(KBook(acts)[o].score, KBook(acts)[o].tpids, updates),
                     Hits(KBook(acts)[o].tpids, updates))
  {
    NextScore(acts, updates, now, o);
    GatheredNear(KBook(acts)[o].score, KBook(acts)[o].tpids, updates);
  }

  lemma NextScore(acts: seq<KAction>, updates: seq<TPIDUpdate>, now: int, o: nat)
    requires o in KBook(acts) && o in KBook(acts + [KCycled(updates, now)])
    ensures KBook(acts + [KCycled(updates, now)])[o].score ==
            KCell(KBook(acts)[o].score, GatherBy(KDiff, KBook(acts)[o].tpids, updates))
  {
    var all := acts + [KCycled(updates, now)];
    assert all[..|all| - 1] == acts;
  }

  lemma GatheredNear(score: int, tpids: seq<nat>, updates: seq<TPIDUpdate>)
    requires Small(updates) && SumFits(score, tpids, updates)
    ensures HeldNear(KCell(score, GatherBy(KDiff, tpids, updates)), ExactScore(score, tpids, updates),
                     Hits(tpids, updates))
  {
    KDiffTracks(updates);
    GatherDriftBy(KDiff, tpids, updates);
    CellNear(score, GatherBy(KDiff, tpids, updates), 100.0 * ExactChange(tpids, updates), Hits(tpids, updates));
  }

  lemma CellNear(score: int, delta: int, change: real, hits: nat)
    requires Abs(delta as real - change) <= hits as real && Abs(score as real + change) + hits as real < 2147483648.0
    ensures HeldNear(KCell(score, delta), score as real + change, hits)
  {
    assert Abs((score + delta) as real) < 2147483648.0;
    assert -0x8000_0000 <= score + delta < 0x8000_0000;
  }

  // ---- Along a run ----

  /** The action does not ingest or evict order o. */
  predicate KLeavesAlone(act: KAction, o: nat)
  {
    && (act.KIngested? ==> act.evt.orderID != o)
    && (act.KEvicted? ==> act.order != o)
  }

  function KBatchesOf(acts: seq<KAction>): seq<seq<TPIDUpdate>>
  {
    if acts == [] then []
    else
      var last := acts[|acts| - 1];
      KBatchesOf(acts[..|acts| - 1]) + if last.KCycled? then [last.updates] else []
  }

  ghost function KScoreAfter(score: int, tpids: seq<nat>, batches: seq<seq<TPIDUpdate>>): int
  {
    if batches == [] then score
    else KCell(KScoreAfter(score, tpids, batches[..|batches| - 1]), GatherBy(KDiff, tpids, batches[|batches| - 1]))
  }

  lemma StepLeaves(b: Book, act: KAction, o: nat)
    requires KLeavesAlone(act, o) && o in KBookStep(b, act)
    ensures o in b && KBookStep(b, act)[o].tpids == b[o].tpids
    ensures KBookStep(b, act)[o].score ==
            if act.KCycled? then KCell(b[o].score, GatherBy(KDiff, b[o].tpids, act.updates)) else b[o].score
  {
  }

  lemma MoreBatches(acts: seq<KAction>, score: int, tpids: seq<nat>)
    requires acts != []
    ensures var front, last := acts[..|acts| - 1], acts[|acts| - 1];
            KScoreAfter(score, tpids, KBatchesOf(acts)) ==
            if last.KCycled?
            then KCell(KScoreAfter(score, tpids, KBatchesOf(front)), GatherBy(KDiff, tpids, last.updates))
            else KScoreAfter(score, tpids, KBatchesOf(front))
  {
    var front, last, batches := acts[..|acts| - 1], acts[|acts| - 1], KBatchesOf(acts);
    if last.KCycled? {
      assert batches == KBatchesOf(front) + [last.updates];
      assert batches[..|batches| - 1] == KBatchesOf(front) && batches[|batches| - 1] == last.updates;
    } else {
      assert batches == KBatchesOf(front);
    }
  }

  /** An order that survives a stretch of actions naming other orders has followed its batches. */
  lemma {:induction false} KScoreTrail(before: seq<KAction>, acts: seq<KAction>, o: nat)
    requires forall i :: 0 <= i < |acts| ==> KLeavesAlone(acts[i], o)
    requires o in KBook(before + acts)
    ensures o in KBook(before)
    ensures KBook(before + acts)[o].tpids == KBook(before)[o].tpids
    ensures KBook(before + acts)[o].score ==
            KScoreAfter(KBook(before)[o].score, KBook(before)[o].tpids, KBatchesOf(acts))
  {
    if acts == [] {
      assert before + acts == before;
    } else {
      var front, last := acts[..|acts| - 1], acts[|acts| - 1];
      assert (before + acts)[..|before + acts| - 1] == before + front;
      StepLeaves(KBook(before + front), last, o);
      KScoreTrail(before, front, o);
      MoreBatches(acts, KBook(before)[o].score, KBook(before)[o].tpids);
    }
  }

  /** The exact score after these updates is clear of both ends of the 16-bit range by more than the hits. */
  ghost predicate Inside(base: real, tpids: seq<nat>, updates: seq<TPIDUpdate>)
  {
    Abs(100.0 * (base + ExactChange(tpids, updates))) + (Hits(tpids, updates) + 1) as real <= 32767.0
  }

  /** So it is after each of the batches. */
  ghost predicate StaysInside(base: real, tpids: seq<nat>, batches: seq<seq<TPIDUpdate>>)
  {
    forall n :: 0 <= n <= |batches| ==> Inside(base, tpids, Flat(batches[..n]))
  }

  lemma {:induction false} InsideScore(score: int, base: real, tpids: seq<nat>, batches: seq<seq<TPIDUpdate>>)
    requires Abs(score as real - 100.0 * base) < 1.0
    requires Small(Flat(batches)) && StaysInside(base, tpids, batches)
    ensures KScoreAfter(score, tpids, batches) == score + GatherBy(KDiff, tpids, Flat(batches))
  {
    if batches == [] {
    } else {
      var front, last := batches[..|batches| - 1], batches[|batches| - 1];
      SmallFront(batches);
      FrontInside(base, tpids, batches);
      InsideScore(score, base, tpids, front);
      GatherAppend(KDiff, tpids, Flat(front), last);
      KDiffTracks(Flat(batches));
      GatherDriftBy(KDiff, tpids, Flat(batches));
      assert batches[..|batches|] == batches && Inside(base, tpids, Flat(batches));
      SumInside(score, base, GatherBy(KDiff, tpids, Flat(batches)), ExactChange(tpids, Flat(batches)),
                Hits(tpids, Flat(batches)));
    }
  }

  lemma SmallFront(batches: seq<seq<TPIDUpdate>>)
    requires batches != [] && Small(Flat(batches))
    ensures Small(Flat(batches[..|batches| - 1]))
  {
    forall u | u in Flat(batches[..|batches| - 1])
      ensures -2147483648.0 < 100.0 * (u.newContrib - u.oldContrib) < 2147483648.0
    {
      assert u in Flat(batches);
    }
  }

  lemma FrontInside(base: real, tpids: seq<nat>, batches: seq<seq<TPIDUpdate>>)
    requires batches != [] && StaysInside(base, tpids, batches)
    ensures StaysInside(base, tpids, batches[..|batches| - 1])
  {
    var front := batches[..|batches| - 1];
    forall n | 0 <= n <= |front| ensures Inside(base, tpids, Flat(front[..n])) {
      assert front[..n] == batches[..n];
    }
  }

  lemma SumInside(score: int, base: real, gathered: int, change: real, hits: nat)
    requires Abs(score as real - 100.0 * base) < 1.0
    requires Abs(gathered as real - 100.0 * change) <= hits as real
    requires Abs(100.0 * (base + change)) + (hits + 1) as real <= 32767.0
    ensures -32768 <= score + gathered <= 32767
  {
    assert Abs((score + gathered) as real) <= 32767.0;
  }

  /** The score is then the written base plus all that was gathered. */
  lemma BookScore(before: seq<KAction>, evt: OrderEvent, at: int, acts: seq<KAction>)
    requires evt.orderID < NUM_ORDERS && forall i :: 0 <= i < |acts| ==> KLeavesAlone(acts[i], evt.orderID)
    requires evt.orderID in KBook(before + [KIngested(evt, at)] + acts)
    requires Small(Flat(KBatchesOf(acts))) && StaysInside(evt.baseScore, evt.tpids, KBatchesOf(acts))
    ensures KBook(before + [KIngested(evt, at)] + acts)[evt.orderID].score ==
            KBase(evt) + GatherBy(KDiff, evt.tpids, Flat(KBatchesOf(acts)))
  {
    var start := before + [KIngested(evt, at)];
    assert start[..|start| - 1] == before;
    KScoreTrail(start, acts, evt.orderID);
    BaseNear(evt, KBatchesOf(acts));
    InsideScore(KBase(evt), evt.baseScore, evt.tpids, KBatchesOf(acts));
  }

  lemma GatherNear(tpids: seq<nat>, store: map<nat, real>, draws: seq<Draw>)
    requires Small(Fetched(store, draws))
    ensures Abs(GatherBy(KDiff, tpids, Fetched(store, draws)) as real - 100.0 * StoreChange(tpids, store, draws))
            <= Hits(tpids, Fetched(store, draws)) as real
  {
    KDiffTracks(Fetched(store, draws));
    GatherDriftBy(KDiff, tpids, Fetched(store, draws));
    ChainTelescopes(tpids, store, draws);
  }

  /** The score is less than margin away from 100 times the exact value. */
  ghost predicate Near(score: int, exact: real, margin: nat) { Abs(score as real - 100.0 * exact) < margin as real }

  lemma SumNear(base: int, gathered: int, exactBase: real, exactChange: real, hits: nat)
    requires Near(base, exactBase, 1) && Abs(gathered as real - 100.0 * exactChange) <= hits as real
    ensures Near(base + gathered, exactBase + exactChange, hits + 1)
  {
    Triangle(base + gathered, base, gathered, exactBase, exactChange, hits);
  }

  lemma ExactNear(evt: OrderEvent, store: map<nat, real>, draws: seq<Draw>, batches: seq<seq<TPIDUpdate>>)
    requires Small(Fetched(store, draws)) && StaysInside(evt.baseScore, evt.tpids, batches)
    ensures var updates := Fetched(store, draws);
            Near(KBase(evt) + GatherBy(KDiff, evt.tpids, updates), evt.baseScore + StoreChange(evt.tpids, store, draws),
                 Hits(evt.tpids, updates) + 1)
  {
    BaseNear(evt, batches);
    GatherNear(evt.tpids, store, draws);
    SumNear(KBase(evt), GatherBy(KDiff, evt.tpids, Fetched(store, draws)), evt.baseScore,
            StoreChange(evt.tpids, store, draws), Hits(evt.tpids, Fetched(store, draws)));
  }

  /**
   * Drift in Kotlin: while the exact score stays inside the 16-bit range, the score the book holds after any
   * stretch of a run is within hits + 1 of 100 times the base plus the change of the order's contributions.
   */
  lemma KRunDrift(before: seq<KAction>, evt: OrderEvent, at: int, acts: seq<KAction>,
                  store: map<nat, real>, draws: seq<Draw>)
    requires evt.orderID < NUM_ORDERS && forall i :: 0 <= i < |acts| ==> KLeavesAlone(acts[i], evt.orderID)
    requires evt.orderID in KBook(before + [KIngested(evt, at)] + acts)
    requires Flat(KBatchesOf(acts)) == Fetched(store, draws)
    requires Small(Fetched(store, draws)) && StaysInside(evt.baseScore, evt.tpids, KBatchesOf(acts))
    ensures Near(KBook(before + [KIngested(evt, at)] + acts)[evt.orderID].score,
                 evt.baseScore + StoreChange(evt.tpids, store, draws), Hits(evt.tpids, Fetched(store, draws)) + 1)
  {
    BookScore(before, evt, at, acts);
    ExactNear(evt, store, draws, KBatchesOf(acts));
  }

  lemma BaseNear(evt: OrderEvent, batches: seq<seq<TPIDUpdate>>)
    requires StaysInside(evt.baseScore, evt.tpids, batches)
    ensures Near(KBase(evt), evt.baseScore, 1)
  {
    KBaseIsScaled(evt);
    assert batches[..0] == [] && Inside(evt.baseScore, evt.tpids, Flat(batches[..0]));
    assert ExactChange(evt.tpids, []) == 0.0;
  }

  /** What an ingest writes: the base score in hundredths, cut toward zero and held inside the 16-bit range. */
  lemma IngestedScore(acts: seq<KAction>, evt: OrderEvent, at: int)
    requires evt.orderID < NUM_ORDERS
    ensures var b := KBook(acts + [KIngested(evt, at)]);
            evt.orderID in b && ScaledBase(b[evt.orderID].score, evt.baseScore, -32768, 32767)
  {
    var all := acts + [KIngested(evt, at)];
    assert all[..|all| - 1] == acts;
    KBaseIsScaled(evt);
  }
}
