/** Laws of the engine value and facts about every reachable state. */
module GoLaws {
  import opened Common
  import opened SeqFacts
  import opened Ranking
  import opened Index
  import opened GoState
  import opened Naive

  // ---- Purging is evicting ----

  lemma SameMatrix(a: seq<seq<int>>, b: seq<seq<int>>)
    requires |a| == |b|
    requires forall p :: 0 <= p < |a| ==> a[p] == b[p]
    ensures a == b
  {
  }

  lemma EvictTwice(s: State, a: set<nat>, b: set<nat>)
    requires Shaped(s)
    ensures Shaped(EvictSet(s, a)) && EvictSet(EvictSet(s, a), b) == EvictSet(s, a + b)
  {
    DropDrop(s.tpids, a, b);
    DropDrop(s.binTags, a, b);
    var twice, once := EvictSet(EvictSet(s, a), b), EvictSet(s, a + b);
    assert twice.meta == once.meta;
    forall p | 0 <= p < |s.rows| ensures twice.rows[p] == once.rows[p] {
      assert twice.rows[p] == ZeroedRow(ZeroedRow(s.rows[p], a), b);
    }
    SameMatrix(twice.rows, once.rows);
  }

  lemma EvictNone(s: State)
    requires Shaped(s) && Consistent(s.tpids) && Consistent(s.binTags)
    ensures EvictSet(s, {}) == s
  {
    DropAbsent(s.tpids, {});
    DropAbsent(s.binTags, {});
    var s' := EvictSet(s, {});
    assert s'.meta == s.meta;
    forall p | 0 <= p < |s.rows| ensures s'.rows[p] == s.rows[p] {
      assert s'.rows[p] == ZeroedRow(s.rows[p], {});
    }
    SameMatrix(s'.rows, s.rows);
  }

  function EvictAll(s: State, order: seq<nat>): State
    requires Shaped(s)
    decreases |order|
  {
    if order == [] then s else EvictAll(Evict(s, order[0]), order[1..])
  }

  function Members(order: seq<nat>): set<nat> { set o | o in order }

  /**
   * One purge has the effect of evicting exactly the expired orders one by one, in any order and
   * even with repetitions.
   */
  lemma PurgeIsEvictions(s: State, now: int, order: seq<nat>)
    requires Shaped(s) && Consistent(s.tpids) && Consistent(s.binTags)
    requires Members(order) == Expired(s, now)
    ensures EvictAll(s, order) == Purge(s, now)
  {
    EvictNone(s);
    forall o | o in order ensures IsActive(s, o) {
      assert o in Members(order);
    }
    EvictRest(s, {}, order);
    assert {} + Members(order) == Members(order);
  }

  lemma EvictOne(s: State, done: set<nat>, o: nat)
    requires Shaped(s) && IsActive(s, o)
    ensures Evict(EvictSet(s, done), o) == EvictSet(s, done + {o})
  {
    if o in done {
      assert done + {o} == done;
    } else {
      EvictTwice(s, done, {o});
    }
  }

  lemma {:induction false} EvictRest(s: State, done: set<nat>, order: seq<nat>)
    requires Shaped(s)
    requires forall o :: o in order ==> IsActive(s, o)
    ensures EvictAll(EvictSet(s, done), order) == EvictSet(s, done + Members(order))
    decreases |order|
  {
    if order == [] {
      assert done + Members(order) == done;
    } else {
      var o := order[0];
      EvictOne(s, done, o);
      EvictRest(s, done + {o}, order[1..]);
      assert done + {o} + Members(order[1..]) == done + Members(order) by {
        ConsSplit(order);
      }
    }
  }

  /**
   * Orders that have not expired keep their metadata, their scores, their own entries, and their place in
   * every list: entry i of a tag's list moves down by exactly the expired entries before it.
   */
  lemma PurgeSparesOthers(s: State, now: int, o: nat, k: nat, i: nat)
    requires Shaped(s) && o < NUM_ORDERS && o !in Expired(s, now)
    ensures Purge(s, now).meta[o] == s.meta[o]
    ensures forall p :: 0 <= p < |s.rows| ==> Purge(s, now).rows[p][o] == s.rows[p][o]
    ensures At(Purge(s, now).binTags.rev, o) == At(s.binTags.rev, o)
    ensures At(Purge(s, now).tpids.rev, o) == At(s.tpids.rev, o)
    ensures At(Purge(s, now).binTags.fwd, k) == Minus(At(s.binTags.fwd, k), Expired(s, now))
    ensures At(Purge(s, now).tpids.fwd, k) == Minus(At(s.tpids.fwd, k), Expired(s, now))
    ensures var list, kept := At(s.binTags.fwd, k), At(Purge(s, now).binTags.fwd, k);
            i < |list| && list[i] == o ==>
              var j := |Minus(list[..i], Expired(s, now))|;
              j < |kept| && kept[j] == o && kept[..j] == Minus(list[..i], Expired(s, now))
  {
    if i < |At(s.binTags.fwd, k)| && At(s.binTags.fwd, k)[i] == o {
      MinusKeepsPlace(At(s.binTags.fwd, k), Expired(s, now), i);
    }
  }

  // ---- Reachable matrices ----

  /** Cells are in range, inactive columns are zero, indexed orders are active and all rows are equal. */
  ghost predicate Tidy(s: State)
  {
    && Shaped(s)
    && (forall p: nat, o: nat :: p < |s.rows| && o < NUM_ORDERS ==> CellTidy(s, p, o))
    && (forall k: nat, o: nat :: o in At(s.binTags.fwd, k) || o in At(s.tpids.fwd, k) ==> IsActive(s, o))
    && (forall p, q :: 0 <= p < |s.rows| && 0 <= q < |s.rows| ==> s.rows[p] == s.rows[q])
    && (forall o :: 0 <= o < NUM_ORDERS && s.meta[o].active ==> s.meta[o].orderID == o)
  }

  ghost predicate CellTidy(s: State, p: nat, o: nat)
    requires Shaped(s) && p < |s.rows| && o < NUM_ORDERS
  {
    && -32767 <= s.rows[p][o] <= 32767
    && (!s.meta[o].active ==> s.rows[p][o] == 0)
  }

  lemma CoupledIsTidy(s: State, b: Book)
    requires Coupled(s, b)
    ensures Tidy(s)
  {
    forall p: nat, o: nat | p < |s.rows| && o < NUM_ORDERS ensures CellTidy(s, p, o) {
      assert OrderLinked(s, b, o);
    }
    forall k: nat, o: nat | o in At(s.binTags.fwd, k) || o in At(s.tpids.fwd, k) ensures IsActive(s, o) {
      assert Count(At(s.binTags.fwd, k), o) == Count(At(s.binTags.rev, o), k);
      assert Count(At(s.tpids.fwd, k), o) == Count(At(s.tpids.rev, o), k);
      assert o < NUM_ORDERS ==> OrderLinked(s, b, o);
    }
    forall p, q | 0 <= p < |s.rows| && 0 <= q < |s.rows| ensures s.rows[p] == s.rows[q] {
      forall o | 0 <= o < NUM_ORDERS ensures s.rows[p][o] == s.rows[q][o] {
        assert OrderLinked(s, b, o);
      }
    }
    forall o | 0 <= o < NUM_ORDERS && s.meta[o].active ensures s.meta[o].orderID == o {
      assert OrderLinked(s, b, o);
    }
  }

  lemma ReachableIsTidy(numPPS: nat, pairs: seq<PairInfo>, acts: seq<Action>, s: State)
    requires WellKept(Init(numPPS, pairs))
    requires IsRun(Init(numPPS, pairs), acts, s)
    ensures Tidy(s) && Consistent(s.tpids) && Consistent(s.binTags)
  {
    RunCoupled(numPPS, pairs, acts, s);
    CoupledIsTidy(s, NaiveRun(acts));
  }

  /** Pairs that share a BinTag publish equal score sequences in every table, whatever their PPS. */
  lemma SharedTagSameScores(s: State, a: PairInfo, b: PairInfo, table: nat, now: int,
                            topA: seq<ScoreEntry>, topB: seq<ScoreEntry>)
    requires Tidy(s) && a.ppsID < |s.rows| && b.ppsID < |s.rows| && a.binTagID == b.binTagID
    requires TopEntries(topA, PairEntries(s, a, table, now), TOP_K)
    requires TopEntries(topB, PairEntries(s, b, table, now), TOP_K)
    ensures Scores(topA) == Scores(topB)
  {
    assert s.rows[a.ppsID] == s.rows[b.ppsID];
    TopScoresAgree(topA, PairEntries(s, a, table, now), topB, PairEntries(s, b, table, now), TOP_K);
  }

  // ---- Phase 1 in exact arithmetic ----

  /** The sum v fits 32 bits, or it wraps to a value that saturates on the same side. */
  predicate WrapsHarmlessly(v: int)
  {
    || INT32_MIN <= v < -INT32_MIN
    || (v >= -INT32_MIN && Wrap32(v) >= 32767)
    || (v < INT32_MIN && Wrap32(v) <= -32767)
  }

  /**
   * The 32-bit kernel saturates exactly, unless the sum leaves 32 bits and wraps to a different
   * saturated value. C leaves that overflow undefined; the statement takes it to wrap, as the
   * 32-bit sums on the Go side do.
   */
  lemma SaturationExactly(score: int, delta: int)
    ensures Saturated(score, delta) == ClampI16(score + delta) <==> WrapsHarmlessly(score + delta)
  {
  }

  /** The largest delta on a score of one turns the best score into the worst. */
  lemma SaturationCanFlip()
    ensures Saturated(1, 0x7FFF_FFFF) == -32767 && ClampI16(1 + 0x7FFF_FFFF) == 32767
  {
  }

  /**
   * Phase 1 leaves in every cell the wrapped and clamped sum of the old score and what the order's own
   * TPIDs gather; that is the clamped sum itself exactly when the sum wraps harmlessly.
   */
  lemma Phase1Cell(s: State, updates: seq<TPIDUpdate>, p: nat, o: nat)
    requires Tidy(s) && Mirrored(s.tpids) && p < |s.rows| && o < NUM_ORDERS
    ensures var v := s.rows[p][o] + Gather(At(s.tpids.rev, o), updates);
            && Phase1(s, updates).rows[p][o] == ClampI16(Wrap32(v))
            && (Phase1(s, updates).rows[p][o] == ClampI16(v) <==> WrapsHarmlessly(v))
  {
    assert CellTidy(s, p, o);
    ScatterIsGather(Diff, s.tpids, updates, o);
    SaturatedGather(s.rows[p][o], Gather(At(s.tpids.rev, o), updates));
    SaturationExactly(s.rows[p][o], Gather(At(s.tpids.rev, o), updates));
  }
}
