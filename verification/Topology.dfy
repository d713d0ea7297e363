/** The status of each (PPS, BinTag) pair: a map that every write replaces by a changed copy. */
module Topology {
  import opened Common

  datatype Status = Active | WarmingUp | Removed

  function StatusOf(topology: map<nat, Status>, pair: PairInfo): Option<Status>
  {
    if pair.Key() in topology then Some(topology[pair.Key()]) else None
  }

  /** topology after every pending pair was set active, in queue order. */
  function Activated(topology: map<nat, Status>, pending: seq<PairInfo>): map<nat, Status>
  {
    if pending == [] then topology
    else Activated(topology, pending[..|pending| - 1])[pending[|pending| - 1].Key() := Active]
  }

  lemma StatusUpdate(topology: map<nat, Status>, a: PairInfo, s: Status, p: PairInfo)
    ensures StatusOf(topology[a.Key() := s], p) == if p == a then Some(s) else StatusOf(topology, p)
  {
    if p.Key() == a.Key() {
      PairKeyInjective(p, a);
    }
  }

  lemma {:induction false} StatusActivated(topology: map<nat, Status>, pending: seq<PairInfo>, p: PairInfo)
    ensures StatusOf(Activated(topology, pending), p) == if p in pending then Some(Active) else StatusOf(topology, p)
  {
    if pending == [] {
    } else {
      var front, last := pending[..|pending| - 1], pending[|pending| - 1];
      StatusActivated(topology, front, p);
      StatusUpdate(Activated(topology, front), last, Active, p);
      assert p in pending <==> p in front || p == last;
    }
  }

  class TopologyState {
    var states: map<nat, Status>

    constructor ()
      ensures states == map[]
    {
      states := map[];
    }

    /** Copy, insert, swap. */
    method Set(pair: PairInfo, status: Status)
      modifies this
      ensures states == old(states)[pair.Key() := status]
    {
      var next := states;
      next := next[pair.Key() := status];
      states := next;
    }
  }
}
