/** The Rust lifecycle handlers and server in their own form, proved against the lifecycle value. */
module RustEngine {
  import opened Common
  import opened Naive
  import opened RustLifecycle
  import opened Topology

  class LifecycleEngine {
    const topology: TopologyState
    var pairs: seq<PairInfo>
    var pending: seq<PairInfo>
    var numPPS: nat
    var data: seq<int>
    var rows: seq<PairInfo>

    ghost function View(): Life
      reads this, topology
    {
      Life(topology.states, pairs, pending, numPPS, data, rows)
    }

    constructor (initial: seq<PairInfo>, topo: TopologyState, pps: nat)
      ensures topology == topo
      ensures View() == Life(topo.states, initial, [], pps, Zeros(pps * NUM_ORDERS), initial)
    {
      topology := topo;
      pairs, pending, numPPS := initial, [], pps;
      data := Zeros(pps * NUM_ORDERS);
      rows := initial;
    }

    /** Marks the pair as warming up, queues it, and tracks it with a matrix row if it is new. */
    method HandleAddPair(pair: PairInfo)
      modifies this, topology
      ensures View() == AddPair(old(View()), pair)
    {
      topology.Set(pair, WarmingUp);
      pending := pending + [pair];
      var alreadyTracked := AnyWithKey(pairs, pair);
      if !alreadyTracked {
        pairs := pairs + [pair];
        var required := pair.ppsID + 1;
        if required > numPPS {
          var extraRows := required - numPPS;
          data := data + Zeros(extraRows * NUM_ORDERS);
          numPPS := required;
        }
      }
    }

    /** Marks the pair removed and drops it from the queue and from the tracked pairs. */
    method HandleRemovePair(pair: PairInfo)
      modifies this, topology
      ensures View() == RemovePair(old(View()), pair)
    {
      topology.Set(pair, Removed);
      pending := FilterPairs(pending, pair.Key());
      pairs := FilterPairs(pairs, pair.Key());
    }

    /** The end of a cycle: publish first, promote afterwards. */
    method PublishAndPromote()
      modifies this, topology
      ensures View() == FinishCycle(old(View()))
    {
      rows := pairs;
      ghost var states := topology.states;
      var drained := pending;
      pending := [];
      for i := 0 to |drained|
        invariant topology.states == Activated(states, drained[..i])
        invariant pairs == rows == old(pairs) && pending == [] && numPPS == old(numPPS) && data == old(data)
      {
        assert drained[..i + 1][..i] == drained[..i];
        topology.Set(drained[i], Active);
      }
      assert drained[..|drained|] == drained;
    }
  }

  method AnyWithKey(pairs: seq<PairInfo>, pair: PairInfo) returns (found: bool)
    ensures found <==> pair in pairs
  {
    for i := 0 to |pairs|
      invariant pair !in pairs[..i]
    {
      if pairs[i].Key() == pair.Key() {
        PairKeyInjective(pairs[i], pair);
        return true;
      }
    }
    return false;
  }

  class PriorityServer {
    const topology: TopologyState
    var pairIndex: map<nat, nat>

    constructor (topo: TopologyState, pairs: seq<PairInfo>)
      ensures topology == topo && pairIndex == IndexOf(pairs)
    {
      topology := topo;
      pairIndex := map[];
      new;
      RefreshPairIndex(pairs);
    }

    /** Clears the index and refills it from the pair list. */
    method RefreshPairIndex(pairs: seq<PairInfo>)
      modifies this
      ensures pairIndex == IndexOf(pairs)
    {
      pairIndex := map[];
      for i := 0 to |pairs|
        invariant pairIndex == IndexOf(pairs[..i])
      {
        assert pairs[..i + 1][..i] == pairs[..i];
        pairIndex := pairIndex[pairs[i].Key() := i];
      }
      assert pairs[..|pairs|] == pairs;
    }
  }
}
