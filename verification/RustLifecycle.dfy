/** The Rust engine's pair lifecycle and its circuit breaker. */
module RustLifecycle {
  import opened Common
  import opened SeqFacts
  import opened GoState
  import opened Naive
  import opened Topology

  /** topology by pair key; rows lists the pairs of the published buffer; data is the score matrix. */
  datatype Life = Life(topology: map<nat, Status>, pairs: seq<PairInfo>, pending: seq<PairInfo>,
                       numPPS: nat, data: seq<int>, rows: seq<PairInfo>)

  // ---- What each handler does ----

  function Zeros(n: nat): seq<int> { seq(n, _ => 0) }

  /** The matrix grown to hold row pps, the added rows zeroed. */
  function Grown(numPPS: nat, data: seq<int>, pps: nat): (nat, seq<int>)
  {
    if pps + 1 > numPPS then (pps + 1, data + Zeros((pps + 1 - numPPS) * NUM_ORDERS)) else (numPPS, data)
  }

  function AddPair(l: Life, pair: PairInfo): Life
  {
    var warm := l.(topology := l.topology[pair.Key() := WarmingUp], pending := l.pending + [pair]);
    if pair in l.pairs then warm
    else
      var (n, data) := Grown(l.numPPS, l.data, pair.ppsID);
      warm.(pairs := l.pairs + [pair], numPPS := n, data := data)
  }

  function RemovePair(l: Life, pair: PairInfo): Life
  {
    l.(topology := l.topology[pair.Key() := Removed],
       pending := UntrackPair(l.pending, pair.Key()), pairs := UntrackPair(l.pairs, pair.Key()))
  }

  /** The end of a cycle: the buffer of the current pairs is published, then pending pairs are promoted. */
  function FinishCycle(l: Life): Life
  {
    l.(rows := l.pairs, topology := Activated(l.topology, l.pending), pending := [])
  }

  datatype LifeAction = Added(pair: PairInfo) | Dropped(pair: PairInfo) | Cycled

  function LifeStep(l: Life, act: LifeAction): Life
  {
    match act
    case Added(pair) => AddPair(l, pair)
    case Dropped(pair) => RemovePair(l, pair)
    case Cycled => FinishCycle(l)
  }

  function LifeRun(l: Life, acts: seq<LifeAction>): Life
  {
    if acts == [] then l else LifeStep(LifeRun(l, acts[..|acts| - 1]), acts[|acts| - 1])
  }

  // ---- The lifecycle invariant ----

  ghost predicate PairOk(l: Life, p: PairInfo)
  {
    && (StatusOf(l.topology, p) == Some(WarmingUp) <==> p in l.pending)
    && (StatusOf(l.topology, p) in {Some(Active), Some(WarmingUp)} <==> p in l.pairs)
    && (p in l.pairs ==> p.ppsID < l.numPPS)
  }

  ghost predicate Distinct(pairs: seq<PairInfo>)
  {
    forall i, j :: 0 <= i < j < |pairs| ==> pairs[i].Key() != pairs[j].Key()
  }

  ghost predicate LifeInv(l: Life)
  {
    && Distinct(l.pairs) && |l.data| == l.numPPS * NUM_ORDERS
    && forall p :: PairOk(l, p)
  }

  /** Every pair active, nothing pending, every row inside the matrix. */
  ghost predicate AllActiveStart(l: Life)
  {
    && Distinct(l.pairs) && |l.data| == l.numPPS * NUM_ORDERS && l.pending == [] && l.rows == l.pairs
    && (forall p :: p in l.pairs ==> p.ppsID < l.numPPS)
    && forall p: PairInfo :: StatusOf(l.topology, p) == if p in l.pairs then Some(Active) else None
  }

  lemma {:induction false} UntrackKeepsDistinct(pairs: seq<PairInfo>, key: nat)
    requires Distinct(pairs)
    ensures Distinct(UntrackPair(pairs, key))
  {
    if pairs == [] {
    } else {
      UntrackKeepsDistinct(pairs[..|pairs| - 1], key);
      var front, last := UntrackPair(pairs[..|pairs| - 1], key), pairs[|pairs| - 1];
      forall i | 0 <= i < |front| ensures front[i].Key() != last.Key() {
        assert front[i] in pairs[..|pairs| - 1];
      }
    }
  }

  lemma AddKeepsInv(l: Life, a: PairInfo)
    requires LifeInv(l)
    ensures LifeInv(AddPair(l, a))
  {
    var l' := AddPair(l, a);
    forall p ensures PairOk(l', p) {
      assert PairOk(l, p);
      StatusUpdate(l.topology, a, WarmingUp, p);
    }
    forall i | 0 <= i < |l.pairs| && a !in l.pairs ensures l.pairs[i].Key() != a.Key() {
      if l.pairs[i].Key() == a.Key() {
        PairKeyInjective(l.pairs[i], a);
      }
    }
  }

  lemma RemoveKeepsInv(l: Life, a: PairInfo)
    requires LifeInv(l)
    ensures LifeInv(RemovePair(l, a))
  {
    var l' := RemovePair(l, a);
    UntrackKeepsDistinct(l.pairs, a.Key());
    forall p ensures PairOk(l', p) {
      assert PairOk(l, p);
      StatusUpdate(l.topology, a, Removed, p);
      UntrackedExactly(l.pairs, a);
      UntrackedExactly(l.pending, a);
    }
  }

  lemma CycleKeepsInv(l: Life)
    requires LifeInv(l)
    ensures LifeInv(FinishCycle(l))
  {
    forall p ensures PairOk(FinishCycle(l), p) {
      assert PairOk(l, p);
      StatusActivated(l.topology, l.pending, p);
    }
  }

  /**
   * In every run from an all-active start: warming up exactly when pending, active or warming up
   * exactly when tracked, keys distinct, every tracked pair's row inside the grown matrix.
   */
  lemma {:induction false} LifecycleInvariant(l: Life, acts: seq<LifeAction>)
    requires AllActiveStart(l)
    ensures LifeInv(LifeRun(l, acts))
  {
    if acts == [] {
      assert forall p :: PairOk(l, p);
    } else {
      var m := LifeRun(l, acts[..|acts| - 1]);
      LifecycleInvariant(l, acts[..|acts| - 1]);
      match acts[|acts| - 1]
      case Added(pair) => AddKeepsInv(m, pair);
      case Dropped(pair) => RemoveKeepsInv(m, pair);
      case Cycled => CycleKeepsInv(m);
    }
  }

  /**
   * What each event does to a pair: an addition makes it warming up and queues it, a removal makes it removed
   * and drops it from both lists, and both leave every other pair alone.
   */
  lemma EventsAreExact(l: Life, a: PairInfo, p: PairInfo)
    ensures var r := AddPair(l, a);
            && StatusOf(r.topology, p) == (if p == a then Some(WarmingUp) else StatusOf(l.topology, p))
            && (p in r.pairs <==> p in l.pairs || p == a) && r.pending == l.pending + [a] && l.pairs <= r.pairs
    ensures var r := RemovePair(l, a);
            && StatusOf(r.topology, p) == (if p == a then Some(Removed) else StatusOf(l.topology, p))
            && (p in r.pairs <==> p in l.pairs && p != a) && (p in r.pending <==> p in l.pending && p != a)
  {
    StatusUpdate(l.topology, a, WarmingUp, p);
    StatusUpdate(l.topology, a, Removed, p);
    UntrackedExactly(l.pairs, a);
    UntrackedExactly(l.pending, a);
  }

  /** After any run exactly those pairs are tracked that were added, or there to begin with, and not removed since. */
  lemma {:induction false} TrackedAfterRun(l: Life, acts: seq<LifeAction>)
    ensures forall p :: p in LifeRun(l, acts).pairs <==> LeftOn(acts, Added(p), Dropped(p), p in l.pairs)
  {
    if acts == [] {
    } else {
      var front := acts[..|acts| - 1];
      TrackedAfterRun(l, front);
      forall p ensures p in LifeRun(l, acts).pairs <==> LeftOn(acts, Added(p), Dropped(p), p in l.pairs) {
        LeftOnNext(acts, Added(p), Dropped(p), p in l.pairs);
        StepTracks(LifeRun(l, front), acts[|acts| - 1], p);
      }
    }
  }

  lemma StepTracks(l: Life, act: LifeAction, p: PairInfo)
    ensures p in LifeStep(l, act).pairs <==> act == Added(p) || (act != Dropped(p) && p in l.pairs)
  {
    match act
    case Added(a) => EventsAreExact(l, a, p);
    case Dropped(a) => EventsAreExact(l, a, p);
    case Cycled =>
  }

  /** Every pair a cycle promotes has a row in the buffer that cycle published, and only pending pairs change. */
  lemma PromotedPairsHaveRows(l: Life, acts: seq<LifeAction>, p: PairInfo)
    requires AllActiveStart(l)
    ensures var before := LifeRun(l, acts);
            var after := FinishCycle(before);
            && (StatusOf(after.topology, p) == Some(Active) <==> p in after.rows)
            && (StatusOf(before.topology, p) != StatusOf(after.topology, p) ==>
                  StatusOf(before.topology, p) == Some(WarmingUp) && p in after.rows)
  {
    var before := LifeRun(l, acts);
    LifecycleInvariant(l, acts);
    assert PairOk(before, p);
    StatusActivated(before.topology, before.pending, p);
  }

  /** A removed pair stays removed, and out of every list, until it is added again. */
  lemma {:induction false} RemovedStaysRemoved(l: Life, acts: seq<LifeAction>, p: PairInfo)
    requires LifeInv(l) && StatusOf(l.topology, p) == Some(Removed)
    requires Added(p) !in acts
    ensures var r := LifeRun(l, acts);
            LifeInv(r) && StatusOf(r.topology, p) == Some(Removed) && p !in r.pairs && p !in r.pending
  {
    if acts == [] {
      assert PairOk(l, p);
    } else {
      var front, last := acts[..|acts| - 1], acts[|acts| - 1];
      RemovedStaysRemoved(l, front, p);
      var m := LifeRun(l, front);
      match last {
        case Added(pair) =>
          AddKeepsInv(m, pair);
          assert last in acts;
          StatusUpdate(m.topology, pair, WarmingUp, p);
        case Dropped(pair) =>
          RemoveKeepsInv(m, pair);
          StatusUpdate(m.topology, pair, Removed, p);
        case Cycled =>
          CycleKeepsInv(m);
          StatusActivated(m.topology, m.pending, p);
      }
      assert PairOk(LifeRun(l, acts), p);
    }
  }

  /** Growing the matrix keeps every score already in it. */
  lemma GrowthKeepsScores(l: Life, a: PairInfo)
    ensures l.data <= AddPair(l, a).data
    ensures forall i :: |l.data| <= i < |AddPair(l, a).data| ==> AddPair(l, a).data[i] == 0
  {
  }

  // ---- The circuit breaker ----

  datatype Reply =
    | NotFound
    | Unavailable
    | Internal
    | Panic
    | Served4(heuristic: seq<int>, large: seq<int>, pbt: seq<int>, critical: seq<int>)

  /** PairKey to buffer row, rebuilt from a pair list. */
  function IndexOf(pairs: seq<PairInfo>): map<nat, nat>
  {
    if pairs == [] then map[] else IndexOf(pairs[..|pairs| - 1])[pairs[|pairs| - 1].Key() := |pairs| - 1]
  }

  /** The answer for a pair: its status decides, then the row the index names is read, which must exist. */
  function GetTopK(topology: map<nat, Status>, index: map<nat, nat>, buf: seq<int>, pair: PairInfo, k: nat): Reply
  {
    match StatusOf(topology, pair)
    case None => NotFound
    case Some(Removed) => NotFound
    case Some(WarmingUp) => Unavailable
    case Some(Active) =>
      if pair.Key() !in index then Internal
      else
        var row := index[pair.Key()];
        if ListOffset(row + 1, 0) > |buf| then Panic
        else Served4(Served(ListAt(buf, row, HEURISTIC), k), Served(ListAt(buf, row, LARGE), k),
                     Served(ListAt(buf, row, PBT), k), Served(ListAt(buf, row, CRITICAL), k))
  }

  lemma {:induction false} IndexFinds(pairs: seq<PairInfo>, p: PairInfo)
    requires Distinct(pairs)
    ensures p.Key() in IndexOf(pairs) <==> p in pairs
    ensures p in pairs ==> IndexOf(pairs)[p.Key()] < |pairs| && pairs[IndexOf(pairs)[p.Key()]] == p
  {
    if pairs == [] {
    } else {
      var front, last := pairs[..|pairs| - 1], pairs[|pairs| - 1];
      IndexFinds(front, p);
      assert p in pairs <==> p in front || p == last;
      if p.Key() == last.Key() {
        PairKeyInjective(p, last);
      }
    }
  }

  /**
   * In every reachable state, with whatever index and buffer: an untracked pair is not found, a
   * queued one is unavailable, and any other is refused as internal exactly when the index lacks it.
   */
  lemma BreakerFollowsLifecycle(l: Life, acts: seq<LifeAction>, index: map<nat, nat>, buf: seq<int>, p: PairInfo,
                                k: nat)
    requires AllActiveStart(l)
    ensures var r := LifeRun(l, acts);
            var reply := GetTopK(r.topology, index, buf, p, k);
            && (reply.NotFound? <==> p !in r.pairs)
            && (reply.Unavailable? <==> p in r.pending)
            && (reply.Internal? <==> p in r.pairs && p !in r.pending && p.Key() !in index)
  {
    LifecycleInvariant(l, acts);
    assert PairOk(LifeRun(l, acts), p);
  }

  /** The four lists of a buffer row, each cut to k ids. */
  ghost predicate ServesRow(reply: Reply, buf: seq<int>, row: nat, k: nat)
    requires ListOffset(row + 1, 0) <= |buf|
  {
    reply == Served4(Served(ListAt(buf, row, HEURISTIC), k), Served(ListAt(buf, row, LARGE), k),
                     Served(ListAt(buf, row, PBT), k), Served(ListAt(buf, row, CRITICAL), k))
  }

  /**
   * Right after a cycle and a refresh of the index, every tracked pair is served the four lists of
   * its own row, the only row it has, and every other pair is not found.
   */
  lemma AnswersFollowLifecycle(l: Life, acts: seq<LifeAction>, p: PairInfo, buf: seq<int>, k: nat)
    requires AllActiveStart(l)
    requires |buf| == ListOffset(|LifeRun(l, acts).pairs|, 0)
    ensures var after := FinishCycle(LifeRun(l, acts));
            var reply := GetTopK(after.topology, IndexOf(after.pairs), buf, p, k);
            && (reply.NotFound? <==> p !in after.rows)
            && forall row: nat :: row < |after.rows| && after.rows[row] == p ==> ServesRow(reply, buf, row, k)
  {
    var before := LifeRun(l, acts);
    LifecycleInvariant(l, acts);
    CycleKeepsInv(before);
    assert PairOk(FinishCycle(before), p);
    IndexFinds(before.pairs, p);
  }

  /** After a removal an index built before it can name a row that the next buffer does not have. */
  lemma StaleIndexPanics(buf: seq<int>)
    requires |buf| == ListOffset(1, 0)
    ensures var a, b := PairInfo(0, 0), PairInfo(0, 1);
            var l := Life(map[a.Key() := Active, b.Key() := Active], [a, b], [], 1, Zeros(NUM_ORDERS), [a, b]);
            var after := FinishCycle(RemovePair(l, a));
            && AllActiveStart(l) && |after.rows| == 1
            && GetTopK(after.topology, IndexOf(l.pairs), buf, b, 10) == Panic
  {
    var a, b := PairInfo(0, 0), PairInfo(0, 1);
    var l := Life(map[a.Key() := Active, b.Key() := Active], [a, b], [], 1, Zeros(NUM_ORDERS), [a, b]);
    forall p: PairInfo ensures StatusOf(l.topology, p) == if p in l.pairs then Some(Active) else None {
      StatusUpdate(map[], a, Active, p);
      StatusUpdate(map[][a.Key() := Active], b, Active, p);
    }
    assert AllActiveStart(l);
    IndexFinds([a, b], b);
    var both := [a, b];
    assert both[..|both| - 1] == [a];
    assert UntrackPair([a], a.Key()) == [];
    assert UntrackPair(both, a.Key()) == [b];
  }
}
