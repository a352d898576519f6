/**
 * `AddedNodeObservers` of riot-compact.js: the registry of the mutation
 * observers the timeline hooks install. An observer is an opaque handle whose
 * `disconnect()` may throw; the registry swallows such failures.
 */
module Observers {

  /** One mutation record delivered to an observer: the nodes it inserted. */
  datatype MutationRecord = MutationRecord(addedNodes: seq<nat>)

  /** A MutationObserver watching the child list of node `target`. */
  class Observer {
    const target: nat
    var connected: bool
    /** How many times `disconnect()` has been called on this observer. */
    ghost var disconnectCalls: nat

    constructor (target: nat)
      ensures this.target == target && connected && disconnectCalls == 0
    {
      this.target := target;
      connected := true;
      disconnectCalls := 0;
    }

    /** `disconnect()`; when `fails`, it throws and the observer stays as it was. */
    method Disconnect(fails: bool) returns (threw: bool)
      modifies this
      ensures threw == fails
      ensures connected == (old(connected) && fails)
      ensures disconnectCalls == old(disconnectCalls) + 1
    {
      disconnectCalls := disconnectCalls + 1;
      threw := fails;
      if !fails {
        connected := false;
      }
    }
  }

  class AddedNodeObservers {
    var observers: seq<Observer>

    /** Every observer is registered once. */
    ghost predicate Valid()
      reads this
    {
      forall i, j :: 0 <= i < j < |observers| ==> observers[i] != observers[j]
    }

    constructor ()
      ensures Valid() && observers == []
    {
      observers := [];
    }

    /** `add(node, callback)`: a new observer of `node` is created, connected and
     *  appended. */
    method Add(node: nat)
      requires Valid()
      modifies this
      ensures Valid()
      ensures |observers| == |old(observers)| + 1
      ensures observers[..|old(observers)|] == old(observers)
      ensures var o := observers[|observers| - 1];
              fresh(o) && o.target == node && o.connected && o.disconnectCalls == 0
    {
      var obs := new Observer(node);
      observers := observers + [obs];
    }

    /** `disconnectAll()`: `disconnect()` is tried once on every registered
     *  observer, a failure is swallowed and does not stop the others, and the
     *  registry ends up empty. The observers in `failing` are those whose
     *  `disconnect()` throws. */
    method DisconnectAll(failing: set<Observer>)
      requires Valid()
      modifies this, observers
      ensures Valid() && observers == []
      ensures forall o :: o in old(observers) ==>
                o.disconnectCalls == old(o.disconnectCalls) + 1 &&
                o.connected == (old(o.connected) && o in failing)
    {
      var all := observers;
      var i := 0;
      while i < |all|
        invariant 0 <= i <= |all| && all == observers
        invariant forall k :: 0 <= k < i ==>
                    all[k].disconnectCalls == old(all[k].disconnectCalls) + 1 &&
                    all[k].connected == (old(all[k].connected) && all[k] in failing)
        invariant forall k :: i <= k < |all| ==>
                    all[k].disconnectCalls == old(all[k].disconnectCalls) &&
                    all[k].connected == old(all[k].connected)
      {
        var threw := all[i].Disconnect(all[i] in failing);
        i := i + 1;
      }
      observers := [];
    }

    /** `_hasAddedNodes(mutationsList)`: some record inserted at least one node. */
    method HasAddedNodes(mutations: seq<MutationRecord>) returns (r: bool)
      ensures r <==> exists i :: 0 <= i < |mutations| && |mutations[i].addedNodes| > 0
    {
      var i := 0;
      while i < |mutations|
        invariant 0 <= i <= |mutations|
        invariant forall k :: 0 <= k < i ==> |mutations[k].addedNodes| == 0
      {
        if |mutations[i].addedNodes| > 0 {
          return true;
        }
        i := i + 1;
      }
      return false;
    }
  }
}
