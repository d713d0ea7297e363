/** How far a truncated integer score can drift from the exact contribution-weighted score. */
module Drift {
  import opened Common
  import opened SeqFacts
  import opened GoState
  import opened Naive

  // ---- The item dictionary chains old and new contributions ----

  datatype Draw = Draw(tpid: nat, contrib: real)

  function Contribution(store: map<nat, real>, t: nat): real { if t in store then store[t] else 0.0 }

  /** The updates of one fetch, each carrying the contribution its TPID had before. */
  function Fetched(store: map<nat, real>, draws: seq<Draw>): seq<TPIDUpdate>
  {
    if draws == [] then []
    else
      var front, d := draws[..|draws| - 1], draws[|draws| - 1];
      Fetched(store, front) + [TPIDUpdate(d.tpid, Contribution(StoreAfter(store, front), d.tpid), d.contrib)]
  }

  function StoreAfter(store: map<nat, real>, draws: seq<Draw>): map<nat, real>
  {
    if draws == [] then store
    else StoreAfter(store, draws[..|draws| - 1])[draws[|draws| - 1].tpid := draws[|draws| - 1].contrib]
  }

  class ItemDictClient {
    var tpidScores: map<nat, real>

    constructor (scores: map<nat, real>)
      ensures tpidScores == scores
    {
      tpidScores := scores;
    }

    /** Records each drawn contribution, remembering the one it replaces. */
    method Fetch(draws: seq<Draw>) returns (updates: seq<TPIDUpdate>)
      modifies this
      ensures updates == Fetched(old(tpidScores), draws)
      ensures tpidScores == StoreAfter(old(tpidScores), draws)
    {
      updates := [];
      for i := 0 to |draws|
        invariant updates == Fetched(old(tpidScores), draws[..i])
        invariant tpidScores == StoreAfter(old(tpidScores), draws[..i])
      {
        assert draws[..i + 1][..i] == draws[..i];
        var tpid, newVal := draws[i].tpid, draws[i].contrib;
        var oldVal := Contribution(tpidScores, tpid);
        tpidScores := tpidScores[tpid := newVal];
        updates := updates + [TPIDUpdate(tpid, oldVal, newVal)];
      }
      assert draws[..|draws|] == draws;
    }
  }

  // ---- Exact counterparts of the integer sums ----

  function Abs(x: real): real { if x >= 0.0 then x else -x }

  /** x added up c times. */
  ghost function Times(c: nat, x: real): real { if c == 0 then 0.0 else Times(c - 1, x) + x }

  lemma {:induction false} TimesScaled(c: nat, x: real)
    ensures Times(c, 100.0 * x) == 100.0 * Times(c, x)
  {
    if c == 0 {
    } else {
      TimesScaled(c - 1, x);
    }
  }

  lemma {:induction false} TimesInteger(c: nat, n: int)
    ensures Times(c, n as real) == (n * c) as real
  {
    if c == 0 {
    } else {
      TimesInteger(c - 1, n);
      assert n * c == n * (c - 1) + n;
    }
  }

  lemma {:induction false} TimesError(c: nat, x: real, y: real)
    requires Abs(x - y) < 1.0
    ensures Abs(Times(c, x) - Times(c, y)) <= c as real
  {
    if c == 0 {
    } else {
      TimesError(c - 1, x, y);
    }
  }

  /** How often the updates hit an order with these TPIDs. */
  ghost function Hits(tpids: seq<nat>, updates: seq<TPIDUpdate>): nat
  {
    if updates == [] then 0
    else Hits(tpids, updates[..|updates| - 1]) + Count(tpids, updates[|updates| - 1].tpid)
  }

  /** The exact change of the order's contributions. */
  ghost function ExactChange(tpids: seq<nat>, updates: seq<TPIDUpdate>): real
  {
    if updates == [] then 0.0
    else
      var u := updates[|updates| - 1];
      ExactChange(tpids, updates[..|updates| - 1]) + Times(Count(tpids, u.tpid), u.newContrib - u.oldContrib)
  }

  lemma {:induction false} FetchedPrefix(store: map<nat, real>, draws: seq<Draw>, n: nat)
    requires n <= |draws|
    ensures |Fetched(store, draws)| == |draws| && Fetched(store, draws[..n]) == Fetched(store, draws)[..n]
  {
    if draws == [] {
    } else {
      var front := draws[..|draws| - 1];
      FetchedPrefix(store, front, if n < |draws| then n else |front|);
      if n < |draws| {
        assert draws[..n] == front[..n];
      } else {
        assert draws[..n] == draws;
      }
    }
  }

  /** No draw of the TPID from position lo up to hi. */
  ghost predicate Undrawn(draws: seq<Draw>, lo: nat, hi: nat, t: nat)
    requires hi <= |draws|
  {
    forall n :: lo <= n < hi ==> draws[n].tpid != t
  }

  lemma {:induction false} UndrawnStays(store: map<nat, real>, draws: seq<Draw>, t: nat)
    requires Undrawn(draws, 0, |draws|, t)
    ensures Contribution(StoreAfter(store, draws), t) == if t in store then store[t] else 0.0
  {
    if draws == [] {
    } else {
      UndrawnStays(store, draws[..|draws| - 1], t);
    }
  }

  lemma {:induction false} DrawnStays(store: map<nat, real>, draws: seq<Draw>, t: nat, j: nat)
    requires j < |draws| && draws[j].tpid == t && Undrawn(draws, j + 1, |draws|, t)
    ensures Contribution(StoreAfter(store, draws), t) == draws[j].contrib
  {
    if j == |draws| - 1 {
    } else {
      DrawnStays(store, draws[..|draws| - 1], t, j);
    }
  }

  /** One update per draw: its TPID, the drawn value, and the one that held before. */
  lemma FetchedAt(store: map<nat, real>, draws: seq<Draw>, i: nat)
    requires i < |draws|
    ensures |Fetched(store, draws)| == |draws|
    ensures Fetched(store, draws)[i] ==
            TPIDUpdate(draws[i].tpid, Contribution(StoreAfter(store, draws[..i]), draws[i].tpid), draws[i].contrib)
  {
    FetchedPrefix(store, draws, i + 1);
    FetchedPrefix(store, draws[..i + 1], i);
    assert draws[..i + 1][..i] == draws[..i];
  }

  /** The value an update replaces is the one drawn last for its TPID, or the stored one, or zero. */
  lemma FetchedExactly(store: map<nat, real>, draws: seq<Draw>, i: nat)
    requires i < |draws|
    ensures |Fetched(store, draws)| == |draws|
    ensures var u := Fetched(store, draws)[i];
            && u.tpid == draws[i].tpid && u.newContrib == draws[i].contrib
            && (Undrawn(draws, 0, i, u.tpid) ==> u.oldContrib == if u.tpid in store then store[u.tpid] else 0.0)
            && forall j :: 0 <= j < i && draws[j].tpid == u.tpid && Undrawn(draws, j + 1, i, u.tpid) ==>
                 u.oldContrib == draws[j].contrib
  {
    FetchedAt(store, draws, i);
    var t, front := draws[i].tpid, draws[..i];
    if Undrawn(draws, 0, i, t) {
      UndrawnStays(store, front, t);
    }
    forall j | 0 <= j < i && draws[j].tpid == t && Undrawn(draws, j + 1, i, t)
      ensures Contribution(StoreAfter(store, front), t) == draws[j].contrib
    {
      DrawnStays(store, front, t, j);
    }
  }

  /** The sum of the order's contributions in a store. */
  ghost function Contributions(tpids: seq<nat>, store: map<nat, real>): real
  {
    if tpids == [] then 0.0
    else Contributions(tpids[..|tpids| - 1], store) + Contribution(store, tpids[|tpids| - 1])
  }

  lemma {:induction false} ContributionsUpdated(tpids: seq<nat>, store: map<nat, real>, t: nat, v: real)
    ensures Contributions(tpids, store[t := v]) ==
            Contributions(tpids, store) + Times(Count(tpids, t), v - Contribution(store, t))
  {
    if tpids == [] {
    } else {
      var front, last := tpids[..|tpids| - 1], tpids[|tpids| - 1];
      ContributionsUpdated(front, store, t, v);
      assert Count(tpids, t) == Count(front, t) + if last == t then 1 else 0 by {
        SnocSplit(tpids);
      }
    }
  }

  /** Chained updates telescope: their exact change is the order's contributions now less those before. */
  lemma {:induction false} ChainTelescopes(tpids: seq<nat>, store: map<nat, real>, draws: seq<Draw>)
    ensures ExactChange(tpids, Fetched(store, draws)) ==
            Contributions(tpids, StoreAfter(store, draws)) - Contributions(tpids, store)
  {
    if draws == [] {
    } else {
      var front, d := draws[..|draws| - 1], draws[|draws| - 1];
      ChainTelescopes(tpids, store, front);
      ContributionsUpdated(tpids, StoreAfter(store, front), d.tpid, d.contrib);
      var all := Fetched(store, draws);
      assert all[..|all| - 1] == Fetched(store, front);
    }
  }

  // ---- The bound ----

  ghost predicate Convertible(x: real) { INT32_MIN <= Trunc(x * SCORE_SCALE) < -INT32_MIN }

  ghost predicate AllConvertible(updates: seq<TPIDUpdate>)
  {
    forall u :: u in updates ==> Convertible(u.newContrib - u.oldContrib)
  }

  /** A conversion that is off by less than one hundredth of a point on each of the updates. */
  ghost predicate Tracks(conv: TPIDUpdate -> int, updates: seq<TPIDUpdate>)
  {
    forall u :: u in updates ==> Abs(conv(u) as real - 100.0 * (u.newContrib - u.oldContrib)) < 1.0
  }

  lemma DiffTracks(updates: seq<TPIDUpdate>)
    requires AllConvertible(updates)
    ensures Tracks(Diff, updates)
  {
    forall u | u in updates ensures Abs(Diff(u) as real - 100.0 * (u.newContrib - u.oldContrib)) < 1.0 {
      assert (u.newContrib - u.oldContrib) * SCORE_SCALE == 100.0 * (u.newContrib - u.oldContrib);
    }
  }

  /** A change too large for 32 bits counts as the least integer, as the conversion does on amd64. */
  lemma HugeDiff(u: TPIDUpdate)
    requires var change := 100.0 * (u.newContrib - u.oldContrib); change >= 2147483648.0 || change <= -2147483649.0
    ensures Diff(u) == -0x8000_0000
  {
    assert (u.newContrib - u.oldContrib) * SCORE_SCALE == 100.0 * (u.newContrib - u.oldContrib);
  }

  /** One update: its integer effect on an order against the exact one. */
  lemma UpdateDrift(u: TPIDUpdate, n: int, c: nat)
    requires Abs(n as real - 100.0 * (u.newContrib - u.oldContrib)) < 1.0
    ensures Abs((n * c) as real - 100.0 * Times(c, u.newContrib - u.oldContrib)) <= c as real
  {
    var change := u.newContrib - u.oldContrib;
    TimesInteger(c, n);
    TimesScaled(c, change);
    TimesError(c, n as real, 100.0 * change);
  }

  lemma {:induction false} GatherDriftBy(conv: TPIDUpdate -> int, tpids: seq<nat>, updates: seq<TPIDUpdate>)
    requires Tracks(conv, updates)
    ensures Abs(GatherBy(conv, tpids, updates) as real - 100.0 * ExactChange(tpids, updates))
            <= Hits(tpids, updates) as real
  {
    if updates == [] {
    } else {
      var front, u := updates[..|updates| - 1], updates[|updates| - 1];
      assert u in updates;
      GatherDriftBy(conv, tpids, front);
      UpdateDrift(u, conv(u), Count(tpids, u.tpid));
    }
  }

  lemma GatherDrift(tpids: seq<nat>, updates: seq<TPIDUpdate>)
    requires AllConvertible(updates)
    ensures Abs(Gather(tpids, updates) as real - 100.0 * ExactChange(tpids, updates)) <= Hits(tpids, updates) as real
  {
    DiffTracks(updates);
    GatherDriftBy(Diff, tpids, updates);
  }

  /** The score an order reaches through a list of update batches. */
  ghost function ScoreAfter(score: int, tpids: seq<nat>, batches: seq<seq<TPIDUpdate>>): int
  {
    if batches == [] then score
    else Saturated(ScoreAfter(score, tpids, batches[..|batches| - 1]), Gather(tpids, batches[|batches| - 1]))
  }

  ghost predicate NeverSaturates(score: int, tpids: seq<nat>, batches: seq<seq<TPIDUpdate>>)
  {
    batches != [] ==>
      && NeverSaturates(score, tpids, batches[..|batches| - 1])
      && -32767 <= ScoreAfter(score, tpids, batches[..|batches| - 1]) + Gather(tpids, batches[|batches| - 1]) <= 32767
  }

  function Flat(batches: seq<seq<TPIDUpdate>>): seq<TPIDUpdate>
  {
    if batches == [] then [] else Flat(batches[..|batches| - 1]) + batches[|batches| - 1]
  }

  lemma {:induction false} GatherAppend(conv: TPIDUpdate -> int, tpids: seq<nat>, a: seq<TPIDUpdate>,
                                        b: seq<TPIDUpdate>)
    ensures GatherBy(conv, tpids, a + b) == GatherBy(conv, tpids, a) + GatherBy(conv, tpids, b)
  {
    if b == [] {
      assert a + b == a;
    } else {
      assert (a + b)[..|a + b| - 1] == a + b[..|b| - 1];
      GatherAppend(conv, tpids, a, b[..|b| - 1]);
    }
  }

  lemma {:induction false} UnsaturatedScore(score: int, tpids: seq<nat>, batches: seq<seq<TPIDUpdate>>)
    requires NeverSaturates(score, tpids, batches)
    ensures ScoreAfter(score, tpids, batches) == score + Gather(tpids, Flat(batches))
  {
    if batches == [] {
    } else {
      var front, last := batches[..|batches| - 1], batches[|batches| - 1];
      UnsaturatedScore(score, tpids, front);
      GatherAppend(Diff, tpids, Flat(front), last);
    }
  }

  lemma BaseDrift(evt: OrderEvent)
    requires -32768.0 < 100.0 * evt.baseScore < 32768.0
    ensures Abs(BaseScore(evt) as real - 100.0 * evt.baseScore) < 1.0
  {
    assert evt.baseScore * SCORE_SCALE == 100.0 * evt.baseScore;
  }

  lemma Triangle(score: int, base: int, gathered: int, exactBase: real, exactChange: real, hits: nat)
    requires score == base + gathered
    requires Abs(base as real - 100.0 * exactBase) < 1.0
    requires Abs(gathered as real - 100.0 * exactChange) <= hits as real
    ensures Abs(score as real - 100.0 * (exactBase + exactChange)) < (hits + 1) as real
  {
  }

  /**
   * Drift: if the batches are what a chaining dictionary handed out and nothing saturated, then
   * after n hits the score is within n + 1 of 100 times the base plus the change of the order's
   * contributions since it was ingested.
   */
  lemma DriftBound(evt: OrderEvent, store: map<nat, real>, draws: seq<Draw>, batches: seq<seq<TPIDUpdate>>,
                   updates: seq<TPIDUpdate>)
    requires updates == Flat(batches) == Fetched(store, draws)
    requires -32768.0 < 100.0 * evt.baseScore < 32768.0
    requires AllConvertible(updates) && NeverSaturates(BaseScore(evt), evt.tpids, batches)
    ensures Abs(ScoreAfter(BaseScore(evt), evt.tpids, batches) as real
                - 100.0 * (evt.baseScore + StoreChange(evt.tpids, store, draws)))
            < (Hits(evt.tpids, updates) + 1) as real
  {
    BaseDrift(evt);
    UnsaturatedScore(BaseScore(evt), evt.tpids, batches);
    ChainedDrift(evt.tpids, store, draws);
    Triangle(ScoreAfter(BaseScore(evt), evt.tpids, batches), BaseScore(evt), Gather(evt.tpids, updates),
             evt.baseScore, StoreChange(evt.tpids, store, draws), Hits(evt.tpids, updates));
  }

  /** The exact counterpart of a gathered sum, read off the dictionary before and after. */
  ghost function StoreChange(tpids: seq<nat>, store: map<nat, real>, draws: seq<Draw>): real
  {
    Contributions(tpids, StoreAfter(store, draws)) - Contributions(tpids, store)
  }

  lemma ChainedDrift(tpids: seq<nat>, store: map<nat, real>, draws: seq<Draw>)
    requires AllConvertible(Fetched(store, draws))
    ensures Abs(Gather(tpids, Fetched(store, draws)) as real - 100.0 * StoreChange(tpids, store, draws))
            <= Hits(tpids, Fetched(store, draws)) as real
  {
    ChainTelescopes(tpids, store, draws);
    GatherDrift(tpids, Fetched(store, draws));
  }

  // ---- The same score along an engine run ----

  /** The action does not ingest or evict order o. */
  predicate LeavesAlone(act: Action, o: nat)
  {
    && (act.Ingested? ==> act.evt.orderID != o)
    && (act.Evicted? ==> act.order != o)
  }

  function BatchesOf(acts: seq<Action>): seq<seq<TPIDUpdate>>
  {
    if acts == [] then []
    else
      var last := acts[|acts| - 1];
      BatchesOf(acts[..|acts| - 1]) + if last.Cycle? then [last.updates] else []
  }

  /** An order that survives a stretch of actions naming other orders has followed its batches. */
  lemma {:induction false} ScoreTrail(before: seq<Action>, acts: seq<Action>, o: nat)
    requires forall act :: act in acts ==> LeavesAlone(act, o)
    requires o in NaiveRun(before + acts)
    ensures o in NaiveRun(before)
    ensures NaiveRun(before + acts)[o].tpids == NaiveRun(before)[o].tpids
    ensures NaiveRun(before + acts)[o].score ==
            ScoreAfter(NaiveRun(before)[o].score, NaiveRun(before)[o].tpids, BatchesOf(acts))
  {
    if acts == [] {
      assert before + acts == before;
    } else {
      var front, last := acts[..|acts| - 1], acts[|acts| - 1];
      assert (before + acts)[..|before + acts| - 1] == before + front;
      assert last in acts;
      ScoreTrail(before, front, o);
      if last.Cycle? {
        var batches := BatchesOf(acts);
        assert batches == BatchesOf(front) + [last.updates];
        assert batches[..|batches| - 1] == BatchesOf(front) && batches[|batches| - 1] == last.updates;
      } else {
        assert BatchesOf(acts) == BatchesOf(front);
      }
    }
  }

  /** The bound for the score the book, and so every matrix row, holds after any stretch of a run. */
  lemma RunDrift(before: seq<Action>, evt: OrderEvent, at: int, acts: seq<Action>,
                 store: map<nat, real>, draws: seq<Draw>, updates: seq<TPIDUpdate>)
    requires var o := evt.orderID;
             && (forall act :: act in acts ==> LeavesAlone(act, o))
             && o in NaiveRun(before + [Ingested(evt, at)] + acts)
    requires updates == Flat(BatchesOf(acts)) == Fetched(store, draws)
    requires -32768.0 < 100.0 * evt.baseScore < 32768.0
    requires AllConvertible(updates) && NeverSaturates(BaseScore(evt), evt.tpids, BatchesOf(acts))
    ensures Abs(NaiveRun(before + [Ingested(evt, at)] + acts)[evt.orderID].score as real
                - 100.0 * (evt.baseScore + StoreChange(evt.tpids, store, draws)))
            < (Hits(evt.tpids, updates) + 1) as real
  {
    var start := before + [Ingested(evt, at)];
    assert start[..|start| - 1] == before;
    ScoreTrail(start, acts, evt.orderID);
    DriftBound(evt, store, draws, BatchesOf(acts), updates);
  }
}
