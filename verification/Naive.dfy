/**
 * A per-order model with no index and no matrix, and the proof that the engine's state follows it
 * through every run.
 */
module Naive {
  import opened Common
  import opened SeqFacts
  import opened Index
  import opened GoState

  datatype NaiveOrder = NaiveOrder(qty: real, deadline: int, tpids: seq<nat>, binTags: seq<nat>,
                                   insertedAt: int, score: int)

  type Book = map<nat, NaiveOrder>

  datatype Action =
    | Ingested(evt: OrderEvent, at: int)
    | Evicted(order: nat)
    | PairAdded(pair: PairInfo)
    | PairRemoved(pair: PairInfo)
    | Cycle(updates: seq<TPIDUpdate>, now: int, buf: seq<int>)

  // ---- The naive model ----

  function Booked(evt: OrderEvent, at: int, score: int): NaiveOrder
  {
    NaiveOrder(evt.requiredQty, evt.pbtDeadline, evt.tpids, evt.binTags, at, score)
  }

  predicate Expires(n: NaiveOrder, now: int) { n.insertedAt > 0 && now - n.insertedAt > ORDER_TTL }

  function Unexpired(b: Book, now: int): Book { map o | o in b && !Expires(b[o], now) :: b[o] }

  ghost function Rescored(n: NaiveOrder, updates: seq<TPIDUpdate>): NaiveOrder
  {
    n.(score := Saturated(n.score, Gather(n.tpids, updates)))
  }

  ghost function Rescore(b: Book, updates: seq<TPIDUpdate>): Book { map o | o in b :: Rescored(b[o], updates) }

  ghost function NaiveStep(b: Book, act: Action): Book
  {
    match act
    case Ingested(evt, at) =>
      b[evt.orderID := Booked(evt, at, BaseScore(evt))]
    case Evicted(o) => b - {o}
    case Cycle(updates, now, _) =>
      Rescore(Unexpired(b, now), updates)
    case _ => b
  }

  ghost function NaiveRun(acts: seq<Action>): Book
  {
    if acts == [] then map[] else NaiveStep(NaiveRun(acts[..|acts| - 1]), acts[|acts| - 1])
  }

  // ---- The engine model ----

  predicate Enabled(s: State, act: Action)
  {
    match act
    case Ingested(evt, _) => evt.orderID < NUM_ORDERS
    case PairAdded(pair) => pair.ppsID < |s.rows|
    case _ => true
  }

  /** A pair is appended unless its key is already tracked. */
  function TrackPair(pairs: seq<PairInfo>, pair: PairInfo): seq<PairInfo>
  {
    if exists p :: p in pairs && p.Key() == pair.Key() then pairs else pairs + [pair]
  }

  function UntrackPair(pairs: seq<PairInfo>, key: nat): (r: seq<PairInfo>)
    ensures forall p :: p in r <==> p in pairs && p.Key() != key
  {
    if pairs == [] then []
    else
      var front, last := UntrackPair(pairs[..|pairs| - 1], key), pairs[|pairs| - 1];
      if last.Key() != key then front + [last] else front
  }

  lemma UntrackedExactly(pairs: seq<PairInfo>, pair: PairInfo)
    ensures forall p :: p in UntrackPair(pairs, pair.Key()) <==> p in pairs && p != pair
  {
    forall p: PairInfo ensures p.Key() == pair.Key() <==> p == pair {
      if p.Key() == pair.Key() {
        PairKeyInjective(p, pair);
      }
    }
  }

  /** What is left of a list is what is left of its parts, in the same order. */
  lemma {:induction false} UntrackedInOrder(a: seq<PairInfo>, b: seq<PairInfo>, key: nat)
    ensures UntrackPair(a + b, key) == UntrackPair(a, key) + UntrackPair(b, key)
  {
    if b == [] {
      assert a + b == a;
    } else {
      assert (a + b)[..|a + b| - 1] == a + b[..|b| - 1];
      UntrackedInOrder(a, b[..|b| - 1], key);
    }
  }

  lemma UntrackedOne(p: PairInfo, key: nat)
    ensures UntrackPair([p], key) == if p.Key() == key then [] else [p]
  {
    assert [p][..|[p]| - 1] == [];
  }

  /** A pair joins the list unless it is there, and nothing else changes. */
  lemma TrackedExactly(pairs: seq<PairInfo>, pair: PairInfo)
    ensures pair in TrackPair(pairs, pair) && pairs <= TrackPair(pairs, pair) <= pairs + [pair]
    ensures pair in pairs ==> TrackPair(pairs, pair) == pairs
    ensures forall p :: p in TrackPair(pairs, pair) <==> p in pairs || p == pair
  {
    forall p | p in pairs && p.Key() == pair.Key() ensures p == pair {
      PairKeyInjective(p, pair);
    }
  }

  /** The loop of both languages: the other pairs are appended, in order, to a fresh list. */
  method FilterPairs(pairs: seq<PairInfo>, key: nat) returns (filtered: seq<PairInfo>)
    ensures filtered == UntrackPair(pairs, key)
  {
    filtered := [];
    for i := 0 to |pairs|
      invariant filtered == UntrackPair(pairs[..i], key)
    {
      assert pairs[..i + 1][..i] == pairs[..i];
      if pairs[i].Key() != key {
        filtered := filtered + [pairs[i]];
      }
    }
    assert pairs[..|pairs|] == pairs;
  }

  ghost function EngineStep(s: State, act: Action): State
    requires Shaped(s) && Enabled(s, act)
  {
    match act
    case Ingested(evt, at) => Ingest(s, evt, at)
    case Evicted(o) => Evict(s, o)
    case PairAdded(pair) => s.(pairs := TrackPair(s.pairs, pair))
    case PairRemoved(pair) => s.(pairs := UntrackPair(s.pairs, pair.Key()))
    case Cycle(updates, now, _) => Prepared(s, updates, now)
  }

  ghost predicate WellKept(s: State) { Shaped(s) && PairsInside(s) }

  lemma StepKeepsShape(s: State, act: Action)
    requires WellKept(s) && Enabled(s, act)
    ensures WellKept(EngineStep(s, act)) && |EngineStep(s, act).rows| == |s.rows|
  {
  }

  /** Engine runs: every cycle publishes some ranked buffer of the state it prepared. */
  ghost predicate IsRun(s: State, acts: seq<Action>, s': State)
    requires WellKept(s)
    ensures IsRun(s, acts, s') ==> WellKept(s')
  {
    if acts == [] then s' == s
    else
      var front, last := acts[..|acts| - 1], acts[|acts| - 1];
      exists m :: IsRun(s, front, m) && LegalStep(m, last, s')
  }

  ghost predicate LegalStep(s: State, act: Action, s': State)
    ensures LegalStep(s, act, s') ==> WellKept(s')
  {
    && WellKept(s) && Enabled(s, act)
    && (StepKeepsShape(s, act); s' == EngineStep(s, act))
    && (act.Cycle? ==> Ranked(act.buf, s', act.now))
  }

  // ---- The coupling ----

  ghost predicate OrderLinked(s: State, b: Book, o: nat)
    requires Shaped(s) && o < NUM_ORDERS
  {
    if o in b then
      && s.meta[o] == OrderMeta(o, b[o].qty, b[o].deadline, true, b[o].insertedAt)
      && At(s.tpids.rev, o) == b[o].tpids
      && At(s.binTags.rev, o) == b[o].binTags
      && forall p :: 0 <= p < |s.rows| ==> s.rows[p][o] == b[o].score
    else
      && !s.meta[o].active
      && At(s.tpids.rev, o) == [] && At(s.binTags.rev, o) == []
      && forall p :: 0 <= p < |s.rows| ==> s.rows[p][o] == 0
  }

  /** Registry, index and matrix hold what the book says of every order, and nothing else. */
  ghost predicate Linked(s: State, b: Book)
  {
    && Shaped(s) && Consistent(s.tpids) && Consistent(s.binTags)
    && (forall o: nat :: o < NUM_ORDERS ==> OrderLinked(s, b, o))
    && (forall o: nat :: o >= NUM_ORDERS ==> o !in b && At(s.tpids.rev, o) == [] && At(s.binTags.rev, o) == [])
  }

  ghost predicate ScoresWithin(b: Book, lo: int, hi: int) { forall o :: o in b ==> lo <= b[o].score <= hi }

  /** The book and the go-cgo engine's state. */
  ghost predicate Coupled(s: State, b: Book) { Linked(s, b) && ScoresWithin(b, -32767, 32767) }

  lemma InitLinked(numPPS: nat, pairs: seq<PairInfo>)
    ensures Linked(Init(numPPS, pairs), map[])
  {
  }

  lemma AddLinks(h: Half, o: nat, keys: seq<nat>)
    requires Consistent(h)
    ensures Consistent(Add(h, o, keys))
    ensures forall x: nat :: At(Add(h, o, keys).rev, x) == if x == o then keys else At(h.rev, x)
  {
    AddConsistent(h, o, keys);
    forall x: nat ensures At(Add(h, o, keys).rev, x) == if x == o then keys else At(h.rev, x) {
      AddAt(h, o, keys, x);
    }
  }

  lemma IngestLinked(s: State, b: Book, evt: OrderEvent, at: int, score: int)
    requires Linked(s, b) && evt.orderID < NUM_ORDERS
    ensures Linked(IngestWith(s, evt, at, score), b[evt.orderID := Booked(evt, at, score)])
  {
    var s', b' := IngestWith(s, evt, at, score), b[evt.orderID := Booked(evt, at, score)];
    AddLinks(s.tpids, evt.orderID, evt.tpids);
    AddLinks(s.binTags, evt.orderID, evt.binTags);
    forall o: nat | o < NUM_ORDERS ensures OrderLinked(s', b', o) {
      assert OrderLinked(s, b, o);
    }
  }

  lemma EvictSetLinked(s: State, b: Book, gone: set<nat>)
    requires Linked(s, b)
    ensures Linked(EvictSet(s, gone), b - gone)
  {
    var s' := EvictSet(s, gone);
    DropConsistent(s.tpids, gone);
    DropConsistent(s.binTags, gone);
    forall o: nat | o < NUM_ORDERS ensures OrderLinked(s', b - gone, o) {
      assert OrderLinked(s, b, o);
    }
  }

  lemma EvictLinked(s: State, b: Book, o: nat)
    requires Linked(s, b)
    ensures Linked(Evict(s, o), b - {o})
  {
    if IsActive(s, o) {
      EvictSetLinked(s, b, {o});
    } else {
      assert o < NUM_ORDERS ==> OrderLinked(s, b, o);
      assert b - {o} == b;
    }
  }

  lemma PurgeLinked(s: State, b: Book, now: int)
    requires Linked(s, b)
    ensures Linked(Purge(s, now), Unexpired(b, now))
  {
    var gone := Expired(s, now);
    EvictSetLinked(s, b, gone);
    forall o | o in b ensures o in gone <==> Expires(b[o], now) {
      assert o < NUM_ORDERS;
      assert OrderLinked(s, b, o);
    }
    assert b - gone == Unexpired(b, now);
  }

  /** The pair list plays no part. */
  lemma PairsLinked(s: State, b: Book, pairs: seq<PairInfo>)
    requires Linked(s, b)
    ensures Linked(s.(pairs := pairs), b)
  {
    forall o: nat | o < NUM_ORDERS ensures OrderLinked(s.(pairs := pairs), b, o) {
      assert OrderLinked(s, b, o);
    }
  }

  /** Scattering through the index adds to each order what its own TPID list gathers. */
  lemma {:induction false} ScatterIsGather(diff: TPIDUpdate -> int, h: Half, updates: seq<TPIDUpdate>, o: nat)
    requires Mirrored(h)
    ensures ScatterBy(diff, h.fwd, updates, o) == GatherBy(diff, At(h.rev, o), updates)
  {
    if updates == [] {
    } else {
      var u := updates[|updates| - 1];
      assert Count(At(h.fwd, u.tpid), o) == Count(At(h.rev, o), u.tpid);
      ScatterIsGather(diff, h, updates[..|updates| - 1], o);
    }
  }

  lemma {:induction false} GatherNothing(diff: TPIDUpdate -> int, updates: seq<TPIDUpdate>)
    ensures GatherBy(diff, [], updates) == 0
  {
    if updates == [] {
    } else {
      GatherNothing(diff, updates[..|updates| - 1]);
    }
  }

  /** The book after the kernel cell has added to each score what the order's own TPIDs gather. */
  ghost function BookBy(cell: (int, int) -> int, diff: TPIDUpdate -> int, b: Book, updates: seq<TPIDUpdate>): Book
  {
    map o | o in b :: b[o].(score := cell(b[o].score, Wrap32(GatherBy(diff, b[o].tpids, updates))))
  }

  /** One kernel over the whole matrix does to the book what the kernel does order by order. */
  lemma RowsLinked(s: State, b: Book, cell: (int, int) -> int, diff: TPIDUpdate -> int, updates: seq<TPIDUpdate>)
    requires Linked(s, b) && cell(0, 0) == 0
    ensures Linked(s.(rows := RowsBy(cell, diff, s.rows, s.tpids.fwd, updates)), BookBy(cell, diff, b, updates))
  {
    var s', b' := s.(rows := RowsBy(cell, diff, s.rows, s.tpids.fwd, updates)), BookBy(cell, diff, b, updates);
    forall o: nat | o < NUM_ORDERS ensures OrderLinked(s', b', o) {
      assert OrderLinked(s, b, o);
      ScatterIsGather(diff, s.tpids, updates, o);
      GatherNothing(diff, updates);
      forall p | 0 <= p < |s.rows|
        ensures s'.rows[p][o] == cell(s.rows[p][o], Wrap32(ScatterBy(diff, s.tpids.fwd, updates, o)))
      {
      }
    }
  }

  lemma SaturatedGather(score: int, delta: int)
    ensures Saturated(score, Wrap32(delta)) == Saturated(score, delta)
  {
    Wrap32Add(delta, score);
  }

  lemma RescoreByCells(b: Book, updates: seq<TPIDUpdate>)
    ensures Rescore(b, updates) == BookBy(Saturated, Diff, b, updates)
  {
    forall o | o in b
      ensures Rescored(b[o], updates) ==
              b[o].(score := Saturated(b[o].score, Wrap32(GatherBy(Diff, b[o].tpids, updates))))
    {
      SaturatedGather(b[o].score, Gather(b[o].tpids, updates));
    }
  }

  lemma RescoreNothing(b: Book)
    requires ScoresWithin(b, -32767, 32767)
    ensures Rescore(b, []) == b
  {
    forall o | o in b ensures Rescored(b[o], []) == b[o] {
      assert Gather(b[o].tpids, []) == 0;
    }
  }

  lemma RescoreWithin(b: Book, updates: seq<TPIDUpdate>)
    ensures ScoresWithin(Rescore(b, updates), -32767, 32767)
  {
  }

  lemma Phase1Coupled(s: State, b: Book, updates: seq<TPIDUpdate>)
    requires Coupled(s, b)
    ensures Coupled(Phase1(s, updates), Rescore(b, updates))
  {
    RescoreWithin(b, updates);
    if updates == [] {
      RescoreNothing(b);
    } else {
      RescoreByCells(b, updates);
      RowsLinked(s, b, Saturated, Diff, updates);
    }
  }

  lemma StepCoupled(s: State, b: Book, act: Action)
    requires Coupled(s, b) && Enabled(s, act)
    ensures Coupled(EngineStep(s, act), NaiveStep(b, act))
  {
    match act
    case Ingested(evt, at) => IngestLinked(s, b, evt, at, BaseScore(evt));
    case Evicted(o) => EvictLinked(s, b, o);
    case Cycle(updates, now, _) =>
      PurgeLinked(s, b, now);
      Phase1Coupled(Purge(s, now), Unexpired(b, now), updates);
    case PairAdded(_) => PairsLinked(s, b, EngineStep(s, act).pairs);
    case PairRemoved(_) => PairsLinked(s, b, EngineStep(s, act).pairs);
  }

  /** In every run the engine's registry, index and matrix are exactly those of the naive book. */
  lemma {:induction false} RunCoupled(numPPS: nat, pairs: seq<PairInfo>, acts: seq<Action>, s: State)
    requires WellKept(Init(numPPS, pairs))
    requires IsRun(Init(numPPS, pairs), acts, s)
    ensures Coupled(s, NaiveRun(acts))
  {
    if acts == [] {
      InitLinked(numPPS, pairs);
    } else {
      var front := acts[..|acts| - 1];
      var m :| IsRun(Init(numPPS, pairs), front, m) && LegalStep(m, acts[|acts| - 1], s);
      RunCoupled(numPPS, pairs, front, m);
      StepCoupled(m, NaiveRun(front), acts[|acts| - 1]);
    }
  }
}
