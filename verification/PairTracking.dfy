/** Which pairs the engines track after a run, and that each of them is published. */
module PairTracking {
  import opened Common
  import opened SeqFacts
  import opened GoState
  import opened Naive
  import opened Headline
  import opened PublishedLaws
  import opened KotlinEngine
  import opened KotlinRuns
  import opened KotlinBook

  ghost predicate DistinctPairs(pairs: seq<PairInfo>)
  {
    forall i, j :: 0 <= i < j < |pairs| ==> pairs[i] != pairs[j]
  }

  lemma TrackKeepsDistinct(pairs: seq<PairInfo>, pair: PairInfo)
    requires DistinctPairs(pairs)
    ensures DistinctPairs(TrackPair(pairs, pair))
  {
    TrackedExactly(pairs, pair);
  }

  lemma {:induction false} UntrackKeepsDistinct(pairs: seq<PairInfo>, key: nat)
    requires DistinctPairs(pairs)
    ensures DistinctPairs(UntrackPair(pairs, key))
  {
    if pairs == [] {
    } else {
      UntrackKeepsDistinct(pairs[..|pairs| - 1], key);
      var front, last := UntrackPair(pairs[..|pairs| - 1], key), pairs[|pairs| - 1];
      forall i | 0 <= i < |front| ensures front[i] != last {
        assert front[i] in pairs[..|pairs| - 1];
      }
    }
  }

  // ---- go-cgo ----

  /**
   * After any run exactly those pairs are tracked that were added, or there to begin with, and not removed
   * since, and none of them twice.
   */
  lemma {:induction false} TrackedAfterRun(numPPS: nat, pairs: seq<PairInfo>, acts: seq<Action>, s: State)
    requires WellKept(Init(numPPS, pairs)) && IsRun(Init(numPPS, pairs), acts, s)
    ensures forall pair :: pair in s.pairs <==> LeftOn(acts, PairAdded(pair), PairRemoved(pair), pair in pairs)
    ensures DistinctPairs(pairs) ==> DistinctPairs(s.pairs)
  {
    if acts == [] {
    } else {
      var front, last := acts[..|acts| - 1], acts[|acts| - 1];
      var m :| IsRun(Init(numPPS, pairs), front, m) && LegalStep(m, last, s);
      TrackedAfterRun(numPPS, pairs, front, m);
      forall pair ensures pair in s.pairs <==> LeftOn(acts, PairAdded(pair), PairRemoved(pair), pair in pairs) {
        LeftOnNext(acts, PairAdded(pair), PairRemoved(pair), pair in pairs);
        StepTracks(m, last, pair);
      }
      StepKeepsDistinct(m, last);
    }
  }

  lemma StepTracks(s: State, act: Action, pair: PairInfo)
    requires Shaped(s) && Enabled(s, act)
    ensures pair in EngineStep(s, act).pairs <==>
            act == PairAdded(pair) || (act != PairRemoved(pair) && pair in s.pairs)
  {
    match act
    case PairAdded(p) => TrackedExactly(s.pairs, p);
    case PairRemoved(p) => UntrackedExactly(s.pairs, p);
    case _ =>
  }

  lemma StepKeepsDistinct(s: State, act: Action)
    requires Shaped(s) && Enabled(s, act)
    ensures DistinctPairs(s.pairs) ==> DistinctPairs(EngineStep(s, act).pairs)
  {
    if DistinctPairs(s.pairs) {
      match act
      case PairAdded(p) => TrackKeepsDistinct(s.pairs, p);
      case PairRemoved(p) => UntrackKeepsDistinct(s.pairs, p.Key());
      case _ =>
    }
  }

  /** A pair added and not removed since has its four lists, the book's, in the buffer of the next cycle. */
  lemma AddedPairIsPublished(numPPS: nat, pairs: seq<PairInfo>, acts: seq<Action>, s: State, pair: PairInfo)
    returns (p: nat)
    requires Publishes(numPPS, pairs, acts, s)
    requires exists i: nat :: i < |acts| && acts[i] == PairAdded(pair) && NoneFrom(acts, i, PairRemoved(pair))
    ensures p < |s.pairs| && s.pairs[p] == pair && |acts[|acts| - 1].buf| == ListOffset(|s.pairs|, 0)
    ensures forall t: nat :: t < NUM_TABLES ==>
              BookList(LastList(acts, p, t), NaiveRun(acts), pair.binTagID, t, acts[|acts| - 1].now)
  {
    TrackedAfterRun(numPPS, pairs, acts, s);
    assert LeftOn(acts, PairAdded(pair), PairRemoved(pair), pair in pairs);
    p :| p < |s.pairs| && s.pairs[p] == pair;
    PublishedListsAreTopK(numPPS, pairs, acts, s, p, HEURISTIC);
    forall t: nat | t < NUM_TABLES
      ensures BookList(LastList(acts, p, t), NaiveRun(acts), pair.binTagID, t, acts[|acts| - 1].now)
    {
      PublishedListsAreTopK(numPPS, pairs, acts, s, p, t);
    }
  }

  // ---- Kotlin ----

  /** The same for Kotlin, whichever maps the engine reads. */
  lemma {:induction false} KTrackedAfterRun(k: KState, acts: seq<KAction>, live: bool)
    requires Good(k) && HaveRows(acts, |k.core.rows|)
    ensures forall pair :: pair in KRun(k, acts, live).core.pairs <==>
              LeftOn(acts, KPairAdded(pair), KPairRemoved(pair), pair in k.core.pairs)
    ensures DistinctPairs(k.core.pairs) ==> DistinctPairs(KRun(k, acts, live).core.pairs)
  {
    if acts == [] {
    } else {
      var front, last := acts[..|acts| - 1], acts[|acts| - 1];
      KTrackedAfterRun(k, front, live);
      var m := KRun(k, front, live);
      forall pair
        ensures pair in KRun(k, acts, live).core.pairs <==>
                LeftOn(acts, KPairAdded(pair), KPairRemoved(pair), pair in k.core.pairs)
      {
        LeftOnNext(acts, KPairAdded(pair), KPairRemoved(pair), pair in k.core.pairs);
        KStepTracks(m, last, live, pair);
      }
      KStepKeepsDistinct(m, last, live);
    }
  }

  lemma KStepTracks(k: KState, act: KAction, live: bool, pair: PairInfo)
    requires Good(k) && HasRow(act, |k.core.rows|)
    ensures pair in KStep(k, act, live).core.pairs <==>
            act == KPairAdded(pair) || (act != KPairRemoved(pair) && pair in k.core.pairs)
  {
    match act
    case KPairAdded(p) => TrackedExactly(k.core.pairs, p);
    case KPairRemoved(p) => UntrackedExactly(k.core.pairs, p);
    case _ =>
  }

  lemma KStepKeepsDistinct(k: KState, act: KAction, live: bool)
    requires Good(k) && HasRow(act, |k.core.rows|)
    ensures DistinctPairs(k.core.pairs) ==> DistinctPairs(KStep(k, act, live).core.pairs)
  {
    if DistinctPairs(k.core.pairs) {
      match act
      case KPairAdded(p) => TrackKeepsDistinct(k.core.pairs, p);
      case KPairRemoved(p) => UntrackKeepsDistinct(k.core.pairs, p.Key());
      case _ =>
    }
  }

  /** A Kotlin cycle publishes four lists for each of them, the book's if it reads current maps. */
  lemma KAddedPairIsPublished(numPPS: nat, pairs: seq<PairInfo>, acts: seq<KAction>, live: bool, pair: PairInfo)
    returns (p: nat)
    requires PairsInside(Init(numPPS, pairs)) && HaveRows(acts, numPPS) && acts != [] && acts[|acts| - 1].KCycled?
    requires exists i: nat :: i < |acts| && acts[i] == KPairAdded(pair) && NoneFrom(acts, i, KPairRemoved(pair))
    ensures var r, lists := KRun(KInit(numPPS, pairs), acts, live), LastLists(KInit(numPPS, pairs), acts, live);
            && p < |r.core.pairs| && r.core.pairs[p] == pair && p < |lists| && |lists[p]| == NUM_TABLES
            && (live || Disciplined(acts) ==> forall t: nat :: t < NUM_TABLES ==>
                  ListOfBook(lists[p][t], KBook(acts), pair.binTagID, t, acts[|acts| - 1].now))
  {
    var k := KInit(numPPS, pairs);
    KTrackedAfterRun(k, acts, live);
    assert LeftOn(acts, KPairAdded(pair), KPairRemoved(pair), pair in pairs);
    p :| p < |KRun(k, acts, live).core.pairs| && KRun(k, acts, live).core.pairs[p] == pair;
    if live || Disciplined(acts) {
      forall t: nat | t < NUM_TABLES
        ensures ListOfBook(LastLists(k, acts, live)[p][t], KBook(acts), pair.binTagID, t, acts[|acts| - 1].now)
      {
        PublishedListsOfBook(numPPS, pairs, acts, live, p, t);
      }
    }
  }
}
