/**
 * Readers racing with the engine when pairs are only ever added. One engine writer interleaves with
 * readers that check the status, consult any index built so far, and load the buffer, in three
 * separate steps.
 */
module RustServing {
  import opened Common
  import opened RustLifecycle
  import opened Topology

  datatype EnginePc =
    | Idle
    | Queueing(pair: PairInfo)        // the status is WarmingUp, the queue does not hold the pair yet
    | Tracking(pair: PairInfo)        // queued, not yet in pairs
    | Built(next: seq<PairInfo>)      // a buffer with these rows is ranked but not published
    | Promoting

  datatype Reader =
    | Waiting
    | SawActive(pair: PairInfo)
    | HasRow(pair: PairInfo, row: nat)
    | Loaded(pair: PairInfo, row: nat, rows: seq<PairInfo>)

  /** rows: the pairs of the published buffer; indexes: every pair index built so far. */
  datatype Sys = Sys(topology: map<nat, Status>, rows: seq<PairInfo>, pairs: seq<PairInfo>, pending: seq<PairInfo>,
                     pc: EnginePc, indexes: seq<map<nat, nat>>, readers: seq<Reader>)

  datatype Event =
    | BeginAdd(pair: PairInfo) | PushPending | PushPair
    | BuildBuffer | Publish | PromoteNext | EndCycle
    | RefreshIndex
    | ReadStatus(reader: nat, pair: PairInfo) | LookUp(reader: nat, index: nat) | LoadBuffer(reader: nat)
    | Answered(reader: nat)

  /** The state after an event; an event that is not enabled changes nothing. */
  function Next(s: Sys, e: Event): (r: Sys)
    ensures |r.readers| == |s.readers|
  {
    match e
    case BeginAdd(p) =>
      if s.pc.Idle? then s.(topology := s.topology[p.Key() := WarmingUp], pc := Queueing(p)) else s
    case PushPending =>
      if s.pc.Queueing? then s.(pending := s.pending + [s.pc.pair], pc := Tracking(s.pc.pair)) else s
    case PushPair =>
      if s.pc.Tracking? then
        s.(pairs := if s.pc.pair in s.pairs then s.pairs else s.pairs + [s.pc.pair], pc := Idle)
      else s
    case BuildBuffer => if s.pc.Idle? then s.(pc := Built(s.pairs)) else s
    case Publish => if s.pc.Built? then s.(rows := s.pc.next, pc := Promoting) else s
    case PromoteNext =>
      if s.pc.Promoting? && s.pending != [] then
        s.(topology := s.topology[s.pending[0].Key() := Active], pending := s.pending[1..])
      else s
    case EndCycle => if s.pc.Promoting? && s.pending == [] then s.(pc := Idle) else s
    case RefreshIndex => s.(indexes := s.indexes + [IndexOf(s.pairs)])
    case ReadStatus(r, p) =>
      if r < |s.readers| && s.readers[r].Waiting? && StatusOf(s.topology, p) == Some(Active)
      then s.(readers := s.readers[r := SawActive(p)]) else s
    case LookUp(r, i) =>
      if r < |s.readers| && s.readers[r].SawActive? && i < |s.indexes| && s.readers[r].pair.Key() in s.indexes[i]
      then s.(readers := s.readers[r := HasRow(s.readers[r].pair, s.indexes[i][s.readers[r].pair.Key()])]) else s
    case LoadBuffer(r) =>
      if r < |s.readers| && s.readers[r].HasRow?
      then s.(readers := s.readers[r := Loaded(s.readers[r].pair, s.readers[r].row, s.rows)]) else s
    case Answered(r) =>
      if r < |s.readers| then s.(readers := s.readers[r := Waiting]) else s
  }

  function Trace(s: Sys, events: seq<Event>): (r: Sys)
    ensures |r.readers| == |s.readers|
  {
    if events == [] then s else Next(Trace(s, events[..|events| - 1]), events[|events| - 1])
  }

  /** All pairs active and published, no reader under way. */
  ghost predicate Fresh(s: Sys)
  {
    && Distinct(s.pairs) && s.rows == s.pairs && s.pending == [] && s.pc == Idle && s.indexes == []
    && (forall p: PairInfo :: StatusOf(s.topology, p) == Some(Active) ==> p in s.pairs)
    && forall r :: 0 <= r < |s.readers| ==> s.readers[r] == Waiting
  }

  // ---- The invariant ----

  ghost predicate IndexOk(index: map<nat, nat>, pairs: seq<PairInfo>)
  {
    forall p: PairInfo :: p.Key() in index ==> index[p.Key()] < |pairs| && pairs[index[p.Key()]] == p
  }

  ghost predicate ReaderOk(reader: Reader, rows: seq<PairInfo>, pairs: seq<PairInfo>)
  {
    match reader
    case Waiting => true
    case SawActive(p) => p in rows
    case HasRow(p, row) => p in rows && row < |pairs| && pairs[row] == p
    case Loaded(p, row, loaded) => row < |loaded| && loaded[row] == p
  }

  ghost predicate EngineOk(s: Sys)
  {
    match s.pc
    case Idle => forall p :: p in s.pending ==> p in s.pairs
    case Queueing(_) => forall p :: p in s.pending ==> p in s.pairs
    case Tracking(a) => forall p :: p in s.pending ==> p in s.pairs || p == a
    case Built(next) => next == s.pairs && forall p :: p in s.pending ==> p in s.pairs
    case Promoting => s.rows == s.pairs && forall p :: p in s.pending ==> p in s.pairs
  }

  ghost predicate Inv(s: Sys)
  {
    && Distinct(s.pairs) && s.rows <= s.pairs && EngineOk(s)
    && (forall p: PairInfo :: StatusOf(s.topology, p) == Some(Active) ==> p in s.rows)
    && (forall i :: 0 <= i < |s.indexes| ==> IndexOk(s.indexes[i], s.pairs))
    && forall r :: 0 <= r < |s.readers| ==> ReaderOk(s.readers[r], s.rows, s.pairs)
  }

  lemma PairsGrow(s: Sys, p: PairInfo)
    requires Inv(s) && p !in s.pairs && s.pc == Tracking(p)
    ensures Inv(s.(pairs := s.pairs + [p], pc := Idle))
  {
    var pairs' := s.pairs + [p];
    forall i | 0 <= i < |s.pairs| ensures s.pairs[i].Key() != p.Key() {
      if s.pairs[i].Key() == p.Key() {
        PairKeyInjective(s.pairs[i], p);
      }
    }
    assert forall i :: 0 <= i < |s.indexes| ==> IndexOk(s.indexes[i], s.pairs);
    forall i | 0 <= i < |s.indexes| ensures IndexOk(s.indexes[i], pairs') {
    }
    forall r | 0 <= r < |s.readers| ensures ReaderOk(s.readers[r], s.rows, pairs') {
      assert ReaderOk(s.readers[r], s.rows, s.pairs);
    }
  }

  lemma StatusSteps(s: Sys, a: PairInfo, status: Status)
    requires Inv(s) && (status == Active ==> a in s.rows)
    ensures forall p: PairInfo :: StatusOf(s.topology[a.Key() := status], p) == Some(Active) ==> p in s.rows
  {
    forall p: PairInfo | StatusOf(s.topology[a.Key() := status], p) == Some(Active) ensures p in s.rows {
      StatusUpdate(s.topology, a, status, p);
    }
  }

  lemma FreshIndexOk(pairs: seq<PairInfo>)
    requires Distinct(pairs)
    ensures IndexOk(IndexOf(pairs), pairs)
  {
    forall p: PairInfo | p.Key() in IndexOf(pairs)
      ensures IndexOf(pairs)[p.Key()] < |pairs| && pairs[IndexOf(pairs)[p.Key()]] == p
    {
      IndexFinds(pairs, p);
    }
  }

  /** A published row is the row any index names: rows are a prefix of the distinct pairs. */
  lemma RowIsPublished(rows: seq<PairInfo>, pairs: seq<PairInfo>, p: PairInfo, row: nat)
    requires Distinct(pairs) && rows <= pairs && p in rows && row < |pairs| && pairs[row] == p
    ensures row < |rows| && rows[row] == p
  {
    var j :| 0 <= j < |rows| && rows[j] == p;
    assert pairs[j] == p;
    assert j == row;
  }

  lemma NextKeepsInv(s: Sys, e: Event)
    requires Inv(s)
    ensures Inv(Next(s, e))
  {
    match e
    case BeginAdd(p) => StatusSteps(s, p, WarmingUp);
    case PushPair =>
      if s.pc.Tracking? && s.pc.pair !in s.pairs {
        PairsGrow(s, s.pc.pair);
      }
    case Publish =>
      forall r | 0 <= r < |s.readers| ensures ReaderOk(s.readers[r], s.pairs, s.pairs) {
        assert ReaderOk(s.readers[r], s.rows, s.pairs);
      }
    case PromoteNext =>
      if s.pc.Promoting? && s.pending != [] {
        assert s.pending[0] in s.pending;
        StatusSteps(s, s.pending[0], Active);
      }
    case RefreshIndex => FreshIndexOk(s.pairs);
    case LookUp(r, i) =>
      if r < |s.readers| && i < |s.indexes| {
        assert ReaderOk(s.readers[r], s.rows, s.pairs) && IndexOk(s.indexes[i], s.pairs);
      }
    case LoadBuffer(r) =>
      if r < |s.readers| && s.readers[r].HasRow? {
        assert ReaderOk(s.readers[r], s.rows, s.pairs);
        RowIsPublished(s.rows, s.pairs, s.readers[r].pair, s.readers[r].row);
      }
    case _ =>
  }

  lemma {:induction false} TraceKeepsInv(s: Sys, events: seq<Event>)
    requires Fresh(s)
    ensures Inv(Trace(s, events))
  {
    if events == [] {
    } else {
      TraceKeepsInv(s, events[..|events| - 1]);
      NextKeepsInv(Trace(s, events[..|events| - 1]), events[|events| - 1]);
    }
  }

  /**
   * Under every interleaving of additions, cycles, refreshes and readers, a reader that saw Active
   * and took its row from any index built so far loads a buffer that has the row, and the row is the
   * pair's own.
   */
  lemma ReadersGetTheirOwnRow(s: Sys, events: seq<Event>, r: nat)
    requires Fresh(s) && r < |s.readers|
    ensures var reader := Trace(s, events).readers[r];
            reader.Loaded? ==> reader.row < |reader.rows| && reader.rows[reader.row] == reader.pair
  {
    TraceKeepsInv(s, events);
    assert ReaderOk(Trace(s, events).readers[r], Trace(s, events).rows, Trace(s, events).pairs);
  }

  // ---- A new pair gets served ----

  /** The three steps of an addition. */
  function Admit(s: Sys, p: PairInfo): Sys { Next(Next(Next(s, BeginAdd(p)), PushPending), PushPair) }

  /** The four steps of a cycle that promotes one pair. */
  function OneCycle(s: Sys): Sys { Next(Next(Next(Next(s, BuildBuffer), Publish), PromoteNext), EndCycle) }

  /** The three steps of a reader. */
  function Ask(s: Sys, r: nat, p: PairInfo, index: nat): Sys
  {
    Next(Next(Next(s, ReadStatus(r, p)), LookUp(r, index)), LoadBuffer(r))
  }

  lemma AdmitTracks(s: Sys, p: PairInfo)
    requires Inv(s) && s.pc.Idle? && s.pending == []
    ensures var t := Admit(s, p);
            && Inv(t) && t.pc.Idle? && t.pending == [p] && p in t.pairs
            && t.indexes == s.indexes && t.readers == s.readers
  {
    NextKeepsInv(s, BeginAdd(p));
    NextKeepsInv(Next(s, BeginAdd(p)), PushPending);
    NextKeepsInv(Next(Next(s, BeginAdd(p)), PushPending), PushPair);
  }

  lemma CyclePublishes(s: Sys, p: PairInfo)
    requires s.pc.Idle? && s.pending == [p]
    ensures var t := OneCycle(s);
            && t.pc.Idle? && t.pending == [] && t.rows == s.pairs == t.pairs
            && StatusOf(t.topology, p) == Some(Active) && t.indexes == s.indexes && t.readers == s.readers
  {
    StatusUpdate(s.topology, p, Active, p);
  }

  lemma AskLoads(s: Sys, r: nat, p: PairInfo, index: nat)
    requires r < |s.readers| && s.readers[r].Waiting? && StatusOf(s.topology, p) == Some(Active)
    requires index < |s.indexes| && p.Key() in s.indexes[index]
    ensures Ask(s, r, p, index).readers[r] == Loaded(p, s.indexes[index][p.Key()], s.rows)
  {
    var seen := Next(s, ReadStatus(r, p));
    assert seen.readers[r] == SawActive(p);
    assert Next(seen, LookUp(r, index)).readers[r] == HasRow(p, s.indexes[index][p.Key()]);
  }

  /** After its addition, one cycle and one refresh of the index, a reader gets the new pair's own row. */
  lemma NewPairIsServed(s: Sys, p: PairInfo, r: nat)
    requires Inv(s) && s.pc.Idle? && s.pending == [] && r < |s.readers| && s.readers[r].Waiting?
    ensures var reader := Ask(Next(OneCycle(Admit(s, p)), RefreshIndex), r, p, |s.indexes|).readers[r];
            reader.Loaded? && reader.pair == p && reader.row < |reader.rows| && reader.rows[reader.row] == p
  {
    AdmitTracks(s, p);
    CyclePublishes(Admit(s, p), p);
    var ready := Next(OneCycle(Admit(s, p)), RefreshIndex);
    IndexFinds(ready.pairs, p);
    assert ready.indexes[|s.indexes|] == IndexOf(ready.pairs);
    AskLoads(ready, r, p, |s.indexes|);
  }

  /**
   * The order matters: had the engine promoted a new pair while its buffer was still unpublished, a
   * reader with a current index would be sent past the end of the buffer it loads.
   */
  lemma PromotingFirstWouldFail(s: Sys, p: PairInfo)
    requires Inv(s) && s.pc.Built? && p in s.pending && p !in s.rows
    requires |s.readers| > 0 && s.readers[0] == Waiting
    ensures var early := s.(topology := s.topology[p.Key() := Active]);
            var seen := Next(Next(early, ReadStatus(0, p)), RefreshIndex);
            var reader := Next(Next(seen, LookUp(0, |s.indexes|)), LoadBuffer(0)).readers[0];
            reader.Loaded? && reader.pair == p && reader.row >= |reader.rows|
  {
    StatusUpdate(s.topology, p, Active, p);
    IndexFinds(s.pairs, p);
    assert forall j :: 0 <= j < |s.rows| ==> s.pairs[j] == s.rows[j];
  }
}
