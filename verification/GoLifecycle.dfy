/** The go-cgo pair lifecycle, whose removal leaves the warm-up queue alone while promotion is unconditional. */
module GoLifecycle {
  import opened Common
  import opened Topology

  /** topology by pair key, and the pairs queued for promotion. */
  datatype GoLife = GoLife(topology: map<nat, Status>, pending: seq<PairInfo>)

  datatype GoLifeAction = Added(pair: PairInfo) | Dropped(pair: PairInfo) | Cycled

  function GoLifeStep(l: GoLife, act: GoLifeAction): GoLife
  {
    match act
    case Added(pair) => GoLife(l.topology[pair.Key() := WarmingUp], l.pending + [pair])
    case Dropped(pair) => l.(topology := l.topology[pair.Key() := Removed])
    case Cycled => GoLife(Activated(l.topology, l.pending), [])
  }

  function GoLifeRun(l: GoLife, acts: seq<GoLifeAction>): GoLife
  {
    if acts == [] then l else GoLifeStep(GoLifeRun(l, acts[..|acts| - 1]), acts[|acts| - 1])
  }

  /** An addition makes the pair warming up, a removal removed, and neither touches another status. */
  lemma StatusChanges(l: GoLife, a: PairInfo, p: PairInfo)
    ensures StatusOf(GoLifeStep(l, Added(a)).topology, p) ==
            if p == a then Some(WarmingUp) else StatusOf(l.topology, p)
    ensures StatusOf(GoLifeStep(l, Dropped(a)).topology, p) ==
            if p == a then Some(Removed) else StatusOf(l.topology, p)
  {
    StatusUpdate(l.topology, a, WarmingUp, p);
    StatusUpdate(l.topology, a, Removed, p);
  }

  /** The pair was added after the last cycle. */
  predicate AddedSinceCycle(acts: seq<GoLifeAction>, p: PairInfo)
  {
    acts != [] && !acts[|acts| - 1].Cycled? &&
    (acts[|acts| - 1] == Added(p) || AddedSinceCycle(acts[..|acts| - 1], p))
  }

  /** The queue holds exactly the pairs added since the last cycle, removed again or not. */
  lemma {:induction false} QueuedExactly(l: GoLife, acts: seq<GoLifeAction>, p: PairInfo)
    requires l.pending == []
    ensures p in GoLifeRun(l, acts).pending <==> AddedSinceCycle(acts, p)
  {
    if acts == [] {
    } else {
      QueuedExactly(l, acts[..|acts| - 1], p);
    }
  }

  /**
   * What a cycle makes of a pair, after any run from an empty queue: active if it was added since the last
   * cycle, even if it was removed since; unchanged otherwise.
   */
  lemma CycleActivatesExactly(l: GoLife, acts: seq<GoLifeAction>, p: PairInfo)
    requires l.pending == []
    ensures var before := GoLifeRun(l, acts);
            StatusOf(GoLifeStep(before, Cycled).topology, p) ==
            if AddedSinceCycle(acts, p) then Some(Active) else StatusOf(before.topology, p)
  {
    QueuedExactly(l, acts, p);
    StatusActivated(GoLifeRun(l, acts).topology, GoLifeRun(l, acts).pending, p);
  }

  /**
   * A pair just removed is removed, and the next cycle makes it active again if and only if it was also added
   * since the last cycle.
   */
  lemma RemovalRevokedExactly(l: GoLife, acts: seq<GoLifeAction>, p: PairInfo)
    requires l.pending == [] && acts != [] && acts[|acts| - 1] == Dropped(p)
    ensures StatusOf(GoLifeRun(l, acts).topology, p) == Some(Removed)
    ensures StatusOf(GoLifeStep(GoLifeRun(l, acts), Cycled).topology, p) == Some(Active) <==> AddedSinceCycle(acts, p)
  {
    StatusUpdate(GoLifeRun(l, acts[..|acts| - 1]).topology, p, Removed, p);
    CycleActivatesExactly(l, acts, p);
  }

  /** Added and removed between two cycles, a pair is served after the second. */
  lemma RemovedPairServed(l: GoLife, p: PairInfo)
    requires l.pending == []
    ensures StatusOf(GoLifeRun(l, [Added(p), Dropped(p), Cycled]).topology, p) == Some(Active)
  {
    var acts := [Added(p), Dropped(p), Cycled];
    var front := acts[..|acts| - 1];
    assert front == [Added(p), Dropped(p)] && front[..|front| - 1] == [Added(p)];
    assert AddedSinceCycle(front[..|front| - 1], p) && AddedSinceCycle(front, p);
    CycleActivatesExactly(l, front, p);
  }
}
