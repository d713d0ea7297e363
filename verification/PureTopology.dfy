/** The go-pure topology: a copy-on-write map written under a mutex, with a guarded promotion. */
module PureTopology {
  import opened Common
  import opened SeqFacts
  import opened Topology

  type StatusMap = map<nat, Status>

  datatype Op = AddWarmingUp(key: nat) | Activate(key: nat) | Remove(key: nat)

  /** The effect of one write on the map. Activate is a no-op unless the pair is warming up. */
  function Apply(m: StatusMap, op: Op): StatusMap
  {
    match op
    case AddWarmingUp(k) => m[k := WarmingUp]
    case Activate(k) => if k in m && m[k] == WarmingUp then m[k := Active] else m
    case Remove(k) => m[k := Removed]
  }

  function ApplyAll(m: StatusMap, ops: seq<Op>): StatusMap
  {
    if ops == [] then m else Apply(ApplyAll(m, ops[..|ops| - 1]), ops[|ops| - 1])
  }

  // ---- The sequential objects ----

  /** A copy made key by key. */
  method CopyMap(src: StatusMap) returns (dst: StatusMap)
    ensures dst == src
  {
    dst := map[];
    var left: set<nat> := src.Keys;
    while left != {}
      invariant left <= src.Keys && dst.Keys == src.Keys - left
      invariant forall k :: k in dst ==> dst[k] == src[k]
      decreases left
    {
      var k: nat :| k in left;
      dst := dst[k := src[k]];
      left := left - {k};
    }
    assert dst.Keys == src.Keys;
  }

  class TopologyState {
    var val: StatusMap

    constructor ()
      ensures val == map[]
    {
      val := map[];
    }

    method AddWarmingUp(pair: PairInfo)
      modifies this
      ensures val == Apply(old(val), Op.AddWarmingUp(pair.Key()))
      ensures val == old(val)[pair.Key() := WarmingUp]
    {
      var next := CopyMap(val);
      next := next[pair.Key() := WarmingUp];
      val := next;
    }

    method Activate(pair: PairInfo)
      modifies this
      ensures val == Apply(old(val), Op.Activate(pair.Key()))
      ensures val.Keys == old(val).Keys
      ensures forall k :: k in val ==>
                val[k] == if k == pair.Key() && old(val)[k] == WarmingUp then Active else old(val)[k]
    {
      if pair.Key() !in val || val[pair.Key()] != WarmingUp {
        return;
      }
      var next := CopyMap(val);
      next := next[pair.Key() := Active];
      val := next;
    }

    method Remove(pair: PairInfo)
      modifies this
      ensures val == Apply(old(val), Op.Remove(pair.Key()))
      ensures val == old(val)[pair.Key() := Removed]
    {
      var next := CopyMap(val);
      next := next[pair.Key() := Removed];
      val := next;
    }
  }

  /** Whether promotion takes the pair off the queue: unknown or still warming up. */
  predicate Promotable(m: StatusMap, key: nat) { key !in m || m[key] == WarmingUp }

  function Promoted(m: StatusMap, pending: seq<PairInfo>): StatusMap
  {
    if pending == [] then m
    else
      var p := Promoted(m, pending[..|pending| - 1]);
      Apply(p, Op.Activate(pending[|pending| - 1].Key()))
  }

  function Remaining(m: StatusMap, pending: seq<PairInfo>): seq<PairInfo>
  {
    if pending == [] then []
    else
      var front, last := pending[..|pending| - 1], pending[|pending| - 1];
      Remaining(m, front) + if Promotable(Promoted(m, front), last.Key()) then [] else [last]
  }

  /**
   * Whether the pair at position i of the queue stays queued: its status is known and it is not warming up
   * any more, from the start or because an earlier entry of the queue has activated it.
   */
  ghost predicate StaysQueued(m: StatusMap, pending: seq<PairInfo>, i: int)
    requires 0 <= i < |pending|
  {
    var k := pending[i].Key();
    k in m && (m[k] != WarmingUp || exists j :: 0 <= j < i && pending[j].Key() == k)
  }

  /** remaining holds, in order, the pairs at exactly those positions of the queue that stay queued. */
  ghost predicate KeptInOrder(m: StatusMap, pending: seq<PairInfo>, remaining: seq<PairInfo>, kept: seq<nat>)
  {
    && |kept| == |remaining|
    && (forall n :: 0 <= n < |kept| ==> kept[n] < |pending| && remaining[n] == pending[kept[n]])
    && (forall n, n' :: 0 <= n < n' < |kept| ==> kept[n] < kept[n'])
    && forall i: nat :: i < |pending| ==> (i in kept <==> StaysQueued(m, pending, i))
  }

  /** promoteWarmingPairs: activates the promotable pairs and keeps the others queued. */
  method PromoteWarmingPairs(topology: TopologyState, pending: seq<PairInfo>)
    returns (remaining: seq<PairInfo>, ghost kept: seq<nat>)
    modifies topology
    ensures topology.val == Promoted(old(topology.val), pending)
    ensures remaining == Remaining(old(topology.val), pending)
    ensures KeptInOrder(old(topology.val), pending, remaining, kept)
  {
    remaining := [];
    ghost var was := topology.val;
    for i := 0 to |pending|
      invariant topology.val == Promoted(was, pending[..i])
      invariant remaining == Remaining(was, pending[..i])
    {
      assert pending[..i + 1][..i] == pending[..i];
      if Promotable(topology.val, pending[i].Key()) {
        topology.Activate(pending[i]);
      } else {
        remaining := remaining + [pending[i]];
      }
    }
    assert pending[..|pending|] == pending;
    kept := RemainingKept(was, pending);
  }

  /** The turn of the last pair of a queue. */
  lemma LastTurn(m: StatusMap, pending: seq<PairInfo>)
    requires pending != []
    ensures var front, last := pending[..|pending| - 1], |pending| - 1;
            !Promotable(Promoted(m, front), pending[last].Key()) <==> StaysQueued(m, pending, last)
  {
    var front, last := pending[..|pending| - 1], |pending| - 1;
    PromotionIsExact(m, front, pending[last].Key());
    if p :| p in front && p.Key() == pending[last].Key() {
      var j :| 0 <= j < |front| && front[j] == p;
      assert pending[j].Key() == pending[last].Key();
    }
    if j :| 0 <= j < last && pending[j].Key() == pending[last].Key() {
      assert pending[j] in front;
    }
  }

  lemma {:induction false} RemainingKept(m: StatusMap, pending: seq<PairInfo>) returns (kept: seq<nat>)
    ensures KeptInOrder(m, pending, Remaining(m, pending), kept)
  {
    if pending == [] {
      kept := [];
    } else {
      var front, last := pending[..|pending| - 1], |pending| - 1;
      var before := RemainingKept(m, front);
      LastTurn(m, pending);
      kept := before + if StaysQueued(m, pending, last) then [last] else [];
      KeptNext(m, pending, before, kept);
    }
  }

  lemma KeptNext(m: StatusMap, pending: seq<PairInfo>, before: seq<nat>, kept: seq<nat>)
    requires pending != []
    requires var front, last := pending[..|pending| - 1], |pending| - 1;
             && KeptInOrder(m, front, Remaining(m, front), before)
             && (!Promotable(Promoted(m, front), pending[last].Key()) <==> StaysQueued(m, pending, last))
             && kept == before + if StaysQueued(m, pending, last) then [last] else []
    ensures KeptInOrder(m, pending, Remaining(m, pending), kept)
  {
    var front, last := pending[..|pending| - 1], |pending| - 1;
    forall i: nat | i < |front| ensures StaysQueued(m, pending, i) <==> StaysQueued(m, front, i) {
    }
    forall i: nat | i < |pending| ensures i in kept <==> StaysQueued(m, pending, i) {
      if i < last {
        assert i in kept <==> i in before;
      } else {
        assert i !in before;
      }
    }
  }

  /** Promotion turns exactly the queued warming pairs active and leaves every other status alone. */
  lemma {:induction false} PromotionIsExact(m: StatusMap, pending: seq<PairInfo>, key: nat)
    ensures Promoted(m, pending).Keys == m.Keys
    ensures key in m ==>
      Promoted(m, pending)[key] ==
        if m[key] == WarmingUp && exists p :: p in pending && p.Key() == key then Active else m[key]
  {
    if pending == [] {
    } else {
      var front, last := pending[..|pending| - 1], pending[|pending| - 1];
      PromotionIsExact(m, front, key);
      PromotionIsExact(m, front, last.Key());
      assert forall p :: p in pending <==> p in front || p == last;
    }
  }

  // ---- Concurrent writers ----

  datatype Writer =
    | Idle
    | Wanting(op: Op)
    | Holding(op: Op)
    | Copied(op: Op, next: StatusMap)
    | Stored(op: Op)

  /**
   * val is the published map, log the writes in the order of their stores, finished the operations
   * that have returned, seen what each lock-free read saw and how long the log was at that moment.
   */
  datatype World = World(val: StatusMap, owner: Option<nat>, writers: seq<Writer>, log: seq<Op>,
                         finished: multiset<Op>, seen: seq<(nat, StatusMap)>)

  datatype Event =
    | Start(w: nat, op: Op)
    | PromoterGet(w: nat, key: nat)
    | Lock(w: nat) | Copy(w: nat) | Store(w: nat) | Unlock(w: nat)
    | Read

  function Next(s: World, e: Event): (r: World)
    ensures |r.writers| == |s.writers|
  {
    match e
    case Start(w, op) =>
      if w < |s.writers| && s.writers[w].Idle? then s.(writers := s.writers[w := Wanting(op)]) else s
    case PromoterGet(w, key) =>
      if w < |s.writers| && s.writers[w].Idle? && Promotable(s.val, key)
      then s.(writers := s.writers[w := Wanting(Activate(key))]) else s
    case Lock(w) =>
      if w < |s.writers| && s.writers[w].Wanting? && s.owner == None
      then s.(owner := Some(w), writers := s.writers[w := Holding(s.writers[w].op)]) else s
    case Copy(w) =>
      if w < |s.writers| && s.writers[w].Holding?
      then s.(writers := s.writers[w := Copied(s.writers[w].op, Apply(s.val, s.writers[w].op))]) else s
    case Store(w) =>
      if w < |s.writers| && s.writers[w].Copied?
      then s.(val := s.writers[w].next, log := s.log + [s.writers[w].op],
              writers := s.writers[w := Stored(s.writers[w].op)]) else s
    case Unlock(w) =>
      if w < |s.writers| && s.writers[w].Stored?
      then s.(owner := None, finished := s.finished + multiset{s.writers[w].op}, writers := s.writers[w := Idle]) else s
    case Read => s.(seen := s.seen + [(|s.log|, s.val)])
  }

  function Trace(s: World, events: seq<Event>): (r: World)
    ensures |r.writers| == |s.writers|
  {
    if events == [] then s else Next(Trace(s, events[..|events| - 1]), events[|events| - 1])
  }

  ghost predicate AtRest(s: World)
  {
    && s.owner == None && s.log == [] && s.finished == multiset{} && s.seen == []
    && forall w :: 0 <= w < |s.writers| ==> s.writers[w].Idle?
  }

  predicate InSection(k: Writer) { k.Holding? || k.Copied? || k.Stored? }

  /** The store of the current owner that has not been counted as finished yet. */
  ghost function Unfinished(s: World): multiset<Op>
  {
    if s.owner.Some? && s.owner.value < |s.writers| && s.writers[s.owner.value].Stored?
    then multiset{s.writers[s.owner.value].op} else multiset{}
  }

  ghost predicate ReadOk(init: StatusMap, log: seq<Op>, read: (nat, StatusMap))
  {
    read.0 <= |log| && read.1 == ApplyAll(init, log[..read.0])
  }

  ghost predicate LogOk(init: StatusMap, s: World)
  {
    && s.val == ApplyAll(init, s.log)
    && forall i :: 0 <= i < |s.seen| ==> ReadOk(init, s.log, s.seen[i])
  }

  ghost predicate LockOk(s: World)
  {
    && (forall w :: 0 <= w < |s.writers| ==> (InSection(s.writers[w]) <==> s.owner == Some(w)))
    && (s.owner.Some? ==> s.owner.value < |s.writers|)
    && (forall w :: 0 <= w < |s.writers| && s.writers[w].Copied? ==> s.writers[w].next == Apply(s.val, s.writers[w].op))
  }

  ghost predicate CountOk(s: World) { multiset(s.log) == s.finished + Unfinished(s) }

  ghost predicate Inv(init: StatusMap, s: World) { LogOk(init, s) && LockOk(s) && CountOk(s) }

  lemma ReadsKept(init: StatusMap, s: World, op: Op)
    requires Inv(init, s)
    ensures forall i :: 0 <= i < |s.seen| ==> ReadOk(init, s.log + [op], s.seen[i])
  {
    forall i | 0 <= i < |s.seen| ensures ReadOk(init, s.log + [op], s.seen[i]) {
      assert ReadOk(init, s.log, s.seen[i]);
      assert (s.log + [op])[..s.seen[i].0] == s.log[..s.seen[i].0];
    }
  }

  lemma StoreKeepsLog(init: StatusMap, s: World, w: nat)
    requires Inv(init, s) && w < |s.writers| && s.writers[w].Copied?
    ensures LogOk(init, Next(s, Store(w)))
  {
    ReadsKept(init, s, s.writers[w].op);
    assert (s.log + [s.writers[w].op])[..|s.log|] == s.log;
  }

  lemma StoreKeepsLock(s: World, w: nat)
    requires LockOk(s) && w < |s.writers| && s.writers[w].Copied?
    ensures LockOk(Next(s, Store(w)))
  {
    assert InSection(s.writers[w]);
  }

  lemma StoreKeepsCount(s: World, w: nat)
    requires LockOk(s) && CountOk(s) && w < |s.writers| && s.writers[w].Copied?
    ensures CountOk(Next(s, Store(w)))
  {
    assert InSection(s.writers[w]);
    assert multiset(s.log + [s.writers[w].op]) == multiset(s.log) + multiset{s.writers[w].op};
  }

  lemma StoreKeepsInv(init: StatusMap, s: World, w: nat)
    requires Inv(init, s) && w < |s.writers| && s.writers[w].Copied?
    ensures Inv(init, Next(s, Store(w)))
  {
    StoreKeepsLog(init, s, w);
    StoreKeepsLock(s, w);
    StoreKeepsCount(s, w);
  }

  lemma UnlockKeepsInv(init: StatusMap, s: World, w: nat)
    requires Inv(init, s) && w < |s.writers| && s.writers[w].Stored?
    ensures Inv(init, Next(s, Unlock(w)))
  {
  }

  /** Steps that neither store nor finish an operation. */
  lemma QuietKeepsLog(init: StatusMap, s: World, e: Event)
    requires LogOk(init, s) && !e.Store? && !e.Unlock?
    ensures LogOk(init, Next(s, e))
  {
    assert s.log[..|s.log|] == s.log;
  }

  /** A step that touches neither log nor count. */
  ghost predicate Quiet(s: World, s': World)
  {
    LockOk(s') && Unfinished(s') == Unfinished(s) && s'.log == s.log && s'.finished == s.finished
  }

  lemma StartIsQuiet(s: World, w: nat, op: Op)
    requires LockOk(s) && w < |s.writers| && s.writers[w].Idle?
    ensures Quiet(s, s.(writers := s.writers[w := Wanting(op)]))
  {
  }

  lemma LockIsQuiet(s: World, w: nat)
    requires LockOk(s)
    ensures Quiet(s, Next(s, Lock(w)))
  {
  }

  lemma CopyIsQuiet(s: World, w: nat)
    requires LockOk(s)
    ensures Quiet(s, Next(s, Copy(w)))
  {
  }

  lemma QuietKeepsLock(s: World, e: Event)
    requires LockOk(s) && !e.Store? && !e.Unlock?
    ensures Quiet(s, Next(s, e))
  {
    match e
    case Start(w, op) =>
      if w < |s.writers| && s.writers[w].Idle? {
        StartIsQuiet(s, w, op);
      }
    case PromoterGet(w, key) =>
      if w < |s.writers| && s.writers[w].Idle? {
        StartIsQuiet(s, w, Op.Activate(key));
      }
    case Lock(w) => LockIsQuiet(s, w);
    case Copy(w) => CopyIsQuiet(s, w);
    case Read =>
  }

  lemma NextKeepsInv(init: StatusMap, s: World, e: Event)
    requires Inv(init, s)
    ensures Inv(init, Next(s, e))
  {
    if e.Store? && e.w < |s.writers| && s.writers[e.w].Copied? {
      StoreKeepsInv(init, s, e.w);
    } else if e.Unlock? && e.w < |s.writers| && s.writers[e.w].Stored? {
      UnlockKeepsInv(init, s, e.w);
    } else if !e.Store? && !e.Unlock? {
      QuietKeepsLog(init, s, e);
      QuietKeepsLock(s, e);
    }
  }

  lemma {:induction false} TraceKeepsInv(s: World, events: seq<Event>)
    requires AtRest(s)
    ensures Inv(s.val, Trace(s, events))
  {
    if events == [] {
    } else {
      TraceKeepsInv(s, events[..|events| - 1]);
      NextKeepsInv(s.val, Trace(s, events[..|events| - 1]), events[|events| - 1]);
    }
  }

  /**
   * Under every interleaving no update is lost and every reader sees a prefix: the map is the result
   * of the logged writes in order, the log holds every finished operation exactly as often as it
   * finished, and each read saw the map after the writes logged by then.
   */
  lemma NoUpdateIsLost(s: World, events: seq<Event>)
    requires AtRest(s)
    ensures var r := Trace(s, events);
            && r.val == ApplyAll(s.val, r.log)
            && r.finished <= multiset(r.log)
            && (r.owner == None ==> multiset(r.log) == r.finished)
            && forall i :: 0 <= i < |r.seen| ==> ReadOk(s.val, r.log, r.seen[i])
  {
    TraceKeepsInv(s, events);
  }

  /** The five steps of a writer. */
  function Write(s: World, w: nat, op: Op): World
  {
    Next(Next(Next(Next(Next(s, Start(w, op)), Lock(w)), Copy(w)), Store(w)), Unlock(w))
  }

  /** An idle writer that finds the mutex free can complete any write, which the log then ends with. */
  lemma WriteCompletes(s: World, w: nat, op: Op)
    requires w < |s.writers| && s.writers[w].Idle? && s.owner == None
    ensures var r := Write(s, w, op);
            && r.owner == None && r.writers == s.writers && r.log == s.log + [op]
            && r.finished == s.finished + multiset{op} && r.val == Apply(s.val, op)
    ensures Next(s, Read).seen == s.seen + [(|s.log|, s.val)]
  {
    var started := Next(s, Start(w, op));
    assert started.writers == s.writers[w := Wanting(op)];
    var held := Next(started, Lock(w));
    assert held.writers == s.writers[w := Holding(op)];
    var copied := Next(held, Copy(w));
    assert copied.writers == s.writers[w := Copied(op, Apply(s.val, op))];
    var stored := Next(copied, Store(w));
    assert stored.writers == s.writers[w := Stored(op)];
    assert Next(stored, Unlock(w)).writers == s.writers;
  }

  // ---- Real time ----

  /** A write that has been stored and not returned yet is the last one logged. */
  ghost predicate TailOk(s: World)
  {
    forall w :: 0 <= w < |s.writers| && s.writers[w].Stored? ==> s.log != [] && s.log[|s.log| - 1] == s.writers[w].op
  }

  lemma {:induction false} TraceKeepsTail(s: World, events: seq<Event>)
    requires AtRest(s)
    ensures TailOk(Trace(s, events))
  {
    if events == [] {
    } else {
      var front := events[..|events| - 1];
      TraceKeepsTail(s, front);
      TraceKeepsInv(s, front);
      NextKeepsTail(Trace(s, front), events[|events| - 1]);
    }
  }

  lemma NextKeepsTail(s: World, e: Event)
    requires TailOk(s) && LockOk(s)
    ensures TailOk(Next(s, e))
  {
    if e.Store? && e.w < |s.writers| && s.writers[e.w].Copied? {
      forall u | 0 <= u < |s.writers| && u != e.w ensures !s.writers[u].Stored? {
        assert InSection(s.writers[e.w]);
      }
    }
  }

  lemma {:induction false} LogGrows(s: World, a: seq<Event>, b: seq<Event>)
    ensures Trace(s, a).log <= Trace(s, a + b).log
  {
    if b == [] {
      assert a + b == a;
    } else {
      assert (a + b)[..|a + b| - 1] == a + b[..|b| - 1];
      LogGrows(s, a, b[..|b| - 1]);
    }
  }

  /** A write stored when some events had happened keeps its place at the end of their log. */
  lemma StoredStays(s: World, past: seq<Event>, v: nat, all: seq<Event>)
    requires AtRest(s) && v < |s.writers| && past <= all && Trace(s, past).writers[v].Stored?
    ensures var i, log := |Trace(s, past).log| - 1, Trace(s, all).log;
            0 <= i < |log| && log[i] == Trace(s, past).writers[v].op
  {
    TraceKeepsTail(s, past);
    assert all == past + all[|past|..];
    LogGrows(s, past, all[|past|..]);
  }

  lemma StoreLogs(s: World, before: seq<Event>, w: nat)
    requires w < |s.writers| && Trace(s, before).writers[w].Copied?
    ensures var stored, op := Trace(s, before + [Store(w)]), Trace(s, before).writers[w].op;
            stored.writers[w] == Stored(op) && stored.log == Trace(s, before).log + [op]
  {
    assert (before + [Store(w)])[..|before|] == before;
  }

  /** The write stored next stands right behind the log so far, for good. */
  lemma StoreLands(s: World, before: seq<Event>, w: nat, all: seq<Event>)
    requires AtRest(s) && w < |s.writers| && Trace(s, before).writers[w].Copied?
    requires before + [Store(w)] <= all
    ensures var j, log := |Trace(s, before).log|, Trace(s, all).log;
            j < |log| && log[j] == Trace(s, before).writers[w].op
  {
    StoreLogs(s, before, w);
    StoredStays(s, before + [Store(w)], w, all);
  }

  lemma PrefixChain<T>(a: seq<T>, x: T, b: seq<T>, y: T, c: seq<T>)
    requires a + [x] <= b && b + [y] <= c
    ensures a <= b && a <= c
  {
    assert a == (a + [x])[..|a|] == b[..|a|];
    assert b == (b + [y])[..|b|] == c[..|b|];
  }

  /**
   * The log keeps real time: a write that returned before another one was stored, in particular before
   * the other one started, stands earlier in the log of every later moment, and both stay where they are.
   */
  lemma LogKeepsRealTime(s: World, past: seq<Event>, v: nat, before: seq<Event>, w: nat, all: seq<Event>)
    requires AtRest(s) && v < |s.writers| && w < |s.writers|
    requires past + [Unlock(v)] <= before && before + [Store(w)] <= all
    requires Trace(s, past).writers[v].Stored? && Trace(s, before).writers[w].Copied?
    ensures var returning, storing, log := Trace(s, past), Trace(s, before), Trace(s, all).log;
            var i, j := |returning.log| - 1, |storing.log|;
            && 0 <= i < j < |log| && log[i] == returning.writers[v].op && log[j] == storing.writers[w].op
  {
    PrefixChain(past, Unlock(v), before, Store(w), all);
    StoredStays(s, past, v, before);
    StoredStays(s, past, v, all);
    StoreLands(s, before, w, all);
  }

  // ---- What the logged writes leave ----

  ghost predicate Shows(m: StatusMap, key: nat, status: Status) { key in m && m[key] == status }

  /** No write of the key after position i. */
  ghost predicate LastWrite(ops: seq<Op>, i: nat, key: nat) { forall j :: i < j < |ops| ==> ops[j].key != key }

  lemma {:induction false} RemovedByLog(m: StatusMap, ops: seq<Op>, i: nat, key: nat)
    requires i < |ops| && ops[i] == Op.Remove(key) && NoneFrom(ops, i, Op.AddWarmingUp(key))
    ensures Shows(ApplyAll(m, ops), key, Removed)
  {
    if i == |ops| - 1 {
    } else {
      NoneFromNext(ops, i, Op.AddWarmingUp(key));
      RemovedByLog(m, ops[..|ops| - 1], i, key);
    }
  }

  lemma {:induction false} AddedByLog(m: StatusMap, ops: seq<Op>, i: nat, key: nat)
    requires i < |ops| && ops[i] == Op.AddWarmingUp(key) && LastWrite(ops, i, key)
    ensures Shows(ApplyAll(m, ops), key, WarmingUp)
  {
    if i == |ops| - 1 {
    } else {
      AddedByLog(m, ops[..|ops| - 1], i, key);
    }
  }

  /** Added at i, activated at j, and neither removed nor added again after i. */
  ghost predicate ActivatedBetween(ops: seq<Op>, i: nat, j: nat, key: nat)
  {
    && i < j < |ops| && ops[i] == Op.AddWarmingUp(key) && ops[j] == Op.Activate(key)
    && forall n :: i < n < |ops| && ops[n].key == key ==> ops[n] == Op.Activate(key)
  }

  lemma {:induction false} ActivatedByLog(m: StatusMap, ops: seq<Op>, i: nat, j: nat, key: nat)
    requires ActivatedBetween(ops, i, j, key)
    ensures Shows(ApplyAll(m, ops), key, Active)
  {
    var front := ops[..|ops| - 1];
    if j < |ops| - 1 {
      ActivatedByLog(m, front, i, j, key);
    } else {
      AddedOrActive(m, front, i, key);
    }
  }

  lemma {:induction false} AddedOrActive(m: StatusMap, ops: seq<Op>, i: nat, key: nat)
    requires i < |ops| && ops[i] == Op.AddWarmingUp(key)
    requires forall n :: i < n < |ops| && ops[n].key == key ==> ops[n] == Op.Activate(key)
    ensures Shows(ApplyAll(m, ops), key, WarmingUp) || Shows(ApplyAll(m, ops), key, Active)
  {
    if i == |ops| - 1 {
    } else {
      AddedOrActive(m, ops[..|ops| - 1], i, key);
    }
  }

  lemma {:induction false} UntouchedByLog(m: StatusMap, ops: seq<Op>, key: nat)
    requires forall n :: 0 <= n < |ops| ==> ops[n].key != key
    ensures key in ApplyAll(m, ops) <==> key in m
    ensures key in m ==> ApplyAll(m, ops)[key] == m[key]
  {
    if ops == [] {
    } else {
      UntouchedByLog(m, ops[..|ops| - 1], key);
    }
  }

  /** The map, and every read made after the first n logged writes, show the status. */
  ghost predicate ShownFrom(r: World, n: nat, key: nat, status: Status)
  {
    && Shows(r.val, key, status)
    && forall q :: 0 <= q < |r.seen| && r.seen[q].0 >= n ==> Shows(r.seen[q].1, key, status)
  }

  /** Under every interleaving a stored removal shows until an addition of the pair is stored after it. */
  lemma RemovalHolds(s: World, events: seq<Event>, i: nat, key: nat)
    requires AtRest(s) && i < |Trace(s, events).log|
    requires Trace(s, events).log[i] == Op.Remove(key) && NoneFrom(Trace(s, events).log, i, Op.AddWarmingUp(key))
    ensures ShownFrom(Trace(s, events), i + 1, key, Removed)
  {
    var r := Trace(s, events);
    NoUpdateIsLost(s, events);
    RemovedByLog(s.val, r.log, i, key);
    forall q | 0 <= q < |r.seen| && r.seen[q].0 >= i + 1 ensures Shows(r.seen[q].1, key, Removed) {
      assert ReadOk(s.val, r.log, r.seen[q]);
      RemovedByLog(s.val, r.log[..r.seen[q].0], i, key);
    }
  }

  /** A stored addition shows until another write of the pair is stored after it. */
  lemma AdditionHolds(s: World, events: seq<Event>, i: nat, key: nat)
    requires AtRest(s) && i < |Trace(s, events).log|
    requires Trace(s, events).log[i] == Op.AddWarmingUp(key) && LastWrite(Trace(s, events).log, i, key)
    ensures ShownFrom(Trace(s, events), i + 1, key, WarmingUp)
  {
    var r := Trace(s, events);
    NoUpdateIsLost(s, events);
    AddedByLog(s.val, r.log, i, key);
    forall q | 0 <= q < |r.seen| && r.seen[q].0 >= i + 1 ensures Shows(r.seen[q].1, key, WarmingUp) {
      assert ReadOk(s.val, r.log, r.seen[q]);
      AddedByLog(s.val, r.log[..r.seen[q].0], i, key);
    }
  }

  /** A stored activation of a pair added before shows until the pair is removed or added again. */
  lemma ActivationHolds(s: World, events: seq<Event>, i: nat, j: nat, key: nat)
    requires AtRest(s) && ActivatedBetween(Trace(s, events).log, i, j, key)
    ensures ShownFrom(Trace(s, events), j + 1, key, Active)
  {
    var r := Trace(s, events);
    NoUpdateIsLost(s, events);
    ActivatedByLog(s.val, r.log, i, j, key);
    forall q | 0 <= q < |r.seen| && r.seen[q].0 >= j + 1 ensures Shows(r.seen[q].1, key, Active) {
      assert ReadOk(s.val, r.log, r.seen[q]);
      ActivatedByLog(s.val, r.log[..r.seen[q].0], i, j, key);
    }
  }

  /** A pair no logged write names keeps the status it began with. */
  lemma OthersStay(s: World, events: seq<Event>, key: nat)
    requires AtRest(s) && forall n :: 0 <= n < |Trace(s, events).log| ==> Trace(s, events).log[n].key != key
    ensures key in Trace(s, events).val <==> key in s.val
    ensures key in s.val ==> Trace(s, events).val[key] == s.val[key]
  {
    NoUpdateIsLost(s, events);
    UntouchedByLog(s.val, Trace(s, events).log, key);
  }

  predicate Dormant(m: StatusMap, key: nat) { key !in m || m[key] == Removed }

  /** No step takes an absent or removed pair to active, even a promotion that read the pair earlier. */
  lemma NoStepRevives(s: World, events: seq<Event>, e: Event, key: nat)
    requires AtRest(s)
    requires Dormant(Trace(s, events).val, key)
    ensures var after := Next(Trace(s, events), e).val;
            key in after ==> after[key] != Active
  {
    TraceKeepsInv(s, events);
  }

  /** A removed pair is active again only after an AddWarmingUp for it was stored later. */
  lemma {:induction false} ActivePairsWereAdded(m: StatusMap, ops: seq<Op>, key: nat)
    requires Dormant(m, key)
    requires key in ApplyAll(m, ops) && ApplyAll(m, ops)[key] in {Active, WarmingUp}
    ensures Op.AddWarmingUp(key) in ops
  {
    if ops == [] {
    } else {
      var front, last := ops[..|ops| - 1], ops[|ops| - 1];
      var before := ApplyAll(m, front);
      if key in before && before[key] in {Active, WarmingUp} {
        ActivePairsWereAdded(m, front, key);
      } else {
        assert last == Op.AddWarmingUp(key);
      }
    }
  }
}
