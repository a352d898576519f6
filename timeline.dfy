/**
 * `TimelineModifier` of riot-compact.js, restricted to the alternating line
 * coloring and to the bodies of its three tasks. The message list's children
 * are given as a sequence, and the document's class lists as an array indexed
 * by node; `colorTimeline` and its steps update that array and the memo
 * `oddEvenMap` in place.
 */
module Timeline {
  import opened Wrappers
  import opened Stripes
  import Debounce
  import Observers

  /** The cooldown every task of the modifier uses. */
  const Cooldown: nat := 500

  class TimelineModifier {
    /** The map from an item's token to the stripe it was last given. */
    var oddEvenMap: map<string, bool>
    const observers: Observers.AddedNodeObservers
    const newTimelineItemTask: Debounce.Task
    const roomSwitchTask: Debounce.Task
    const timelineReconstructTask: Debounce.Task

    ghost predicate Valid()
      reads this, observers
    {
      observers.Valid()
    }

    constructor ()
      ensures Valid() && fresh(observers) && observers.observers == []
      ensures oddEvenMap == map[]
      ensures fresh(newTimelineItemTask) && fresh(roomSwitchTask) && fresh(timelineReconstructTask)
      ensures newTimelineItemTask.Valid() && newTimelineItemTask.timeout == Cooldown &&
              newTimelineItemTask.State() == Debounce.Initial
      ensures roomSwitchTask.Valid() && roomSwitchTask.timeout == Cooldown &&
              roomSwitchTask.State() == Debounce.Initial
      ensures timelineReconstructTask.Valid() && timelineReconstructTask.timeout == Cooldown &&
              timelineReconstructTask.State() == Debounce.Initial
    {
      oddEvenMap := map[];
      observers := new Observers.AddedNodeObservers();
      newTimelineItemTask := new Debounce.Task(Cooldown);
      roomSwitchTask := new Debounce.Task(Cooldown);
      timelineReconstructTask := new Debounce.Task(Cooldown);
    }

    /** `collectItems`: the kept children of the list, in order, with tokens. */
    method CollectItems(children: seq<Child>, classList: array<set<string>>) returns (items: seq<Item>)
      requires InTable(children, classList[..])
      ensures items == Collected(children, classList[..])
    {
      ghost var table := classList[..];
      items := [];
      var i := 0;
      while i < |children|
        invariant 0 <= i <= |children|
        invariant Collected(children, table) == items + Collected(children, table, i)
      {
        var item := children[i];
        var name := Lower(item.nodeName);
        var keep := false;
        if name == "li" {
          // every message or separator, except the read marker
          keep := ReadMarker !in classList[item.node];
        } else if name == "div" {
          // only event summaries, not the typing notification
          keep := Summary in classList[item.node];
        }
        CollectedStep(children, table, i);
        if keep {
          items := items + [Item(item.node, item.token)];
        }
        i := i + 1;
      }
    }

    /** `isFirstItemOdd`: the stripe of the first item that gives the first item
     *  known to the memo its remembered stripe; false when none is known. */
    method IsFirstItemOdd(items: seq<Item>) returns (odd: bool)
      ensures odd == StartParity(items, oddEvenMap)
    {
      var i := 0;
      while i < |items|
        invariant 0 <= i <= |items|
        invariant FirstHit(items, oddEvenMap) == FirstHit(items, oddEvenMap, i)
      {
        if Key(items[i].token) in oddEvenMap {
          return if oddEvenMap[Key(items[i].token)] then i % 2 == 0 else i % 2 == 1;
        }
        i := i + 1;
      }
      return false;
    }

    /** `noteOddEven`: records in the memo the stripe of the first and of the
     *  last item with a truthy token. */
    method NoteOddEven(firstItemIsOdd: bool, items: seq<Item>)
      modifies this`oddEvenMap
      ensures oddEvenMap == Noted(firstItemIsOdd, items, old(oddEvenMap))
    {
      var i := 0;
      while i < |items|
        invariant 0 <= i <= |items|
        invariant FirstTokened(items) == FirstTokened(items, i)
        invariant oddEvenMap == old(oddEvenMap)
      {
        if Tokened(items[i].token) {
          oddEvenMap := oddEvenMap[items[i].token.value := Stripe(firstItemIsOdd, i)];
          break;
        }
        i := i + 1;
      }
      ghost var noted := oddEvenMap;
      assert noted == NoteOne(old(oddEvenMap), firstItemIsOdd, items, FirstTokened(items));
      var j := |items|;
      while j > 0
        invariant 0 <= j <= |items|
        invariant LastTokened(items, |items|) == LastTokened(items, j)
        invariant oddEvenMap == noted
      {
        if Tokened(items[j - 1].token) {
          oddEvenMap := oddEvenMap[items[j - 1].token.value := Stripe(firstItemIsOdd, j - 1)];
          break;
        }
        j := j - 1;
      }
    }

    /** `setClass`: gives the items alternating stripes, starting with `odd`. */
    method SetClass(odd: bool, items: seq<Item>, classList: array<set<string>>)
      requires NodesIn(items, classList[..])
      modifies classList
      ensures classList[..] == Recolored(old(classList[..]), items, odd)
    {
      var stripe := odd;
      var i := 0;
      while i < |items|
        invariant 0 <= i <= |items|
        invariant stripe == Stripe(odd, i)
        invariant classList[..] == Recolored(old(classList[..]), items[..i], odd)
      {
        var node := items[i].node;
        RecoloredSnoc(old(classList[..]), items, odd, i);
        StripeAlternates(odd, i);
        // remove the opposite stripe class, then add this item's
        classList[node] := (classList[node] - {if stripe then EvenClass else OddClass})
                           + {if stripe then OddClass else EvenClass};
        stripe := !stripe;
        i := i + 1;
      }
      assert items[..i] == items;
    }

    /** `colorTimeline`: collect the items, choose the first stripe (false on a
     *  first run), note the boundaries in the memo, and set the classes. */
    method ColorTimeline(isFirst: bool, children: seq<Child>, classList: array<set<string>>)
      requires InTable(children, classList[..])
      modifies this`oddEvenMap, classList
      ensures var items := Collected(children, old(classList[..]));
              var first := FirstStripe(isFirst, items, old(oddEvenMap));
              oddEvenMap == Noted(first, items, old(oddEvenMap)) &&
              classList[..] == Recolored(old(classList[..]), items, first)
    {
      var items := CollectItems(children, classList);
      var firstItemIsOdd := false;
      if !isFirst {
        firstItemIsOdd := IsFirstItemOdd(items);
      }
      NoteOddEven(firstItemIsOdd, items);
      SetClass(firstItemIsOdd, items, classList);
    }

    /** The body of `roomSwitchTask`: forget the memo, disconnect every observer
     *  (swallowing failures), then look the list up again and recolor it, not as
     *  a first run. With the memo empty that starts from the even stripe, as a
     *  first run does. When the lookup gives up (`list` is None), `update`
     *  throws before coloring: the memo stays empty and no class changes. */
    method RoomSwitch(list: Option<seq<Child>>, classList: array<set<string>>, failing: set<Observers.Observer>)
      requires Valid() && (list.Some? ==> InTable(list.value, classList[..]))
      modifies this`oddEvenMap, observers, observers.observers, classList
      ensures Valid() && observers.observers == []
      ensures forall o :: o in old(observers.observers) ==>
                o.disconnectCalls == old(o.disconnectCalls) + 1 &&
                o.connected == (old(o.connected) && o in failing)
      ensures list.None? ==> oddEvenMap == map[] && classList[..] == old(classList[..])
      ensures list.Some? ==>
                var items := Collected(list.value, old(classList[..]));
                oddEvenMap == Noted(false, items, map[]) &&
                classList[..] == Recolored(old(classList[..]), items, false)
    {
      oddEvenMap := map[];
      observers.DisconnectAll(failing);
      if list.Some? {
        ColorTimeline(false, list.value, classList);
        EmptyMemoStartsEven(Collected(list.value, old(classList[..])));
      }
    }

    /** The body of `timelineReconstructTask`: disconnect every observer, then
     *  look the list up again and recolor it from the memo, not as a first run.
     *  When the lookup gives up (`list` is None), `update` throws before
     *  coloring: the memo and the classes are left as they were. */
    method TimelineReconstruct(list: Option<seq<Child>>, classList: array<set<string>>, failing: set<Observers.Observer>)
      requires Valid() && (list.Some? ==> InTable(list.value, classList[..]))
      modifies this`oddEvenMap, observers, observers.observers, classList
      ensures Valid() && observers.observers == []
      ensures forall o :: o in old(observers.observers) ==>
                o.disconnectCalls == old(o.disconnectCalls) + 1 &&
                o.connected == (old(o.connected) && o in failing)
      ensures list.None? ==> oddEvenMap == old(oddEvenMap) && classList[..] == old(classList[..])
      ensures list.Some? ==>
                var items := Collected(list.value, old(classList[..]));
                var first := StartParity(items, old(oddEvenMap));
                oddEvenMap == Noted(first, items, old(oddEvenMap)) &&
                classList[..] == Recolored(old(classList[..]), items, first)
    {
      observers.DisconnectAll(failing);
      if list.Some? {
        ColorTimeline(false, list.value, classList);
      }
    }
  }
}
