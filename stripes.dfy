/**
 * The alternating line coloring of the timeline in riot-compact.js, as values:
 * which children of the message list are colored, the starting stripe derived
 * from the memo of earlier stripes, what the memo records, and the classes the
 * coloring writes. `Timeline.TimelineModifier` runs the same steps in place and
 * is proved against these functions.
 */
module Stripes {
  import opened Wrappers

  /** The `data-scroll-tokens` attribute of a child: None when it is absent (null). */
  type Token = Option<string>

  /** A child node of the message list: its index in the document's class table,
   *  its `nodeName` and its token. Its classes live in that table. */
  datatype Child = Child(node: nat, nodeName: string, token: Token)

  /** An item to color: `{node, token}`. */
  datatype Item = Item(node: nat, token: Token)

  const ReadMarker := "mx_RoomView_myReadMarker_container"
  const Summary := "mx_EventListSummary"
  const OddClass := "ext-line-odd"
  const EvenClass := "ext-line-even"

  /** `toLowerCase` on the ASCII letters (element names are ASCII). */
  function Lower(s: string): (r: string)
    ensures |r| == |s|
  {
    if s == [] then []
    else [LowerChar(s[0])] + Lower(s[1..])
  }

  function LowerChar(c: char): char {
    if 'A' <= c <= 'Z' then (c as int + 32) as char else c
  }

  /** `Lower` maps every character through `LowerChar` and leaves no upper-case
   *  ASCII letter behind. */
  lemma {:induction false} LowerLowers(s: string)
    ensures forall i :: 0 <= i < |s| ==> Lower(s)[i] == LowerChar(s[i])
    ensures forall i :: 0 <= i < |s| ==> !('A' <= Lower(s)[i] <= 'Z')
    decreases |s|
  {
    if s != [] {
      LowerLowers(s[1..]);
      assert Lower(s) == [LowerChar(s[0])] + Lower(s[1..]);
    }
  }

  /** A child takes part in the coloring: an `li` that is not the read marker, or
   *  a `div` that is an event list summary. */
  predicate Kept(c: Child, classes: set<string>)
    ensures Kept(c, classes) ==> Lower(c.nodeName) == "li" || Lower(c.nodeName) == "div"
    ensures ReadMarker in classes && Summary !in classes ==> !Kept(c, classes)
  {
    var name := Lower(c.nodeName);
    (name == "li" && ReadMarker !in classes) || (name == "div" && Summary in classes)
  }

  ghost predicate InTable(children: seq<Child>, table: seq<set<string>>) {
    forall i :: 0 <= i < |children| ==> children[i].node < |table|
  }

  /** `collectItems`: the kept children from index `from` on, in order, with
   *  their tokens. */
  function Collected(children: seq<Child>, table: seq<set<string>>, from: nat := 0): (items: seq<Item>)
    requires InTable(children, table) && from <= |children|
    ensures |items| <= |children| - from
    ensures NodesIn(items, table)
    decreases |children| - from
  {
    if from == |children| then []
    else
      var c := children[from];
      (if Kept(c, table[c.node]) then [Item(c.node, c.token)] else []) + Collected(children, table, from + 1)
  }

  /** One step of the filter: the child at `i` is kept or dropped. */
  lemma CollectedStep(children: seq<Child>, table: seq<set<string>>, i: nat)
    requires InTable(children, table) && i < |children|
    ensures var c := children[i];
            forall items: seq<Item> ::
              items + Collected(children, table, i) ==
              (if Kept(c, table[c.node]) then items + [Item(c.node, c.token)] else items) +
              Collected(children, table, i + 1)
  {
    var c := children[i];
    forall items: seq<Item> ensures
      items + Collected(children, table, i) ==
      (if Kept(c, table[c.node]) then items + [Item(c.node, c.token)] else items) +
      Collected(children, table, i + 1)
    {
      if Kept(c, table[c.node]) {
        assert items + Collected(children, table, i) ==
               items + ([Item(c.node, c.token)] + Collected(children, table, i + 1));
      } else {
        assert Collected(children, table, i) == [] + Collected(children, table, i + 1);
      }
    }
  }

  /** The indices of the kept children from `from` on, in increasing order:
   *  the positions `collectItems` takes its items from. */
  ghost function KeptIndices(children: seq<Child>, table: seq<set<string>>, from: nat := 0): (idx: seq<nat>)
    requires InTable(children, table) && from <= |children|
    ensures forall k :: 0 <= k < |idx| ==> from <= idx[k] < |children|
    ensures forall k, l :: 0 <= k < l < |idx| ==> idx[k] < idx[l]
    decreases |children| - from
  {
    if from == |children| then []
    else
      var c := children[from];
      (if Kept(c, table[c.node]) then [from] else []) + KeptIndices(children, table, from + 1)
  }

  /** There is one kept position per collected item. */
  lemma {:induction false} KeptIndicesLength(children: seq<Child>, table: seq<set<string>>, from: nat)
    requires InTable(children, table) && from <= |children|
    ensures |KeptIndices(children, table, from)| == |Collected(children, table, from)|
    decreases |children| - from
  {
    if from < |children| {
      KeptIndicesLength(children, table, from + 1);
    }
  }

  /** The k-th item is the k-th kept child, with its node and its token (absent
   *  tokens included). */
  lemma {:induction false} CollectedAt(children: seq<Child>, table: seq<set<string>>, from: nat, k: nat)
    requires InTable(children, table) && from <= |children| && k < |Collected(children, table, from)|
    ensures |KeptIndices(children, table, from)| == |Collected(children, table, from)| &&
            var i := KeptIndices(children, table, from)[k];
            Kept(children[i], table[children[i].node]) &&
            Collected(children, table, from)[k] == Item(children[i].node, children[i].token)
    decreases |children| - from
  {
    KeptIndicesLength(children, table, from);
    var c := children[from];
    var kept := Kept(c, table[c.node]);
    var items := Collected(children, table, from);
    var rest := Collected(children, table, from + 1);
    var idx := KeptIndices(children, table, from);
    var restIdx := KeptIndices(children, table, from + 1);
    assert items == (if kept then [Item(c.node, c.token)] else []) + rest;
    assert idx == (if kept then [from] else []) + restIdx;
    if kept && k == 0 {
      assert idx[0] == from && items[0] == Item(c.node, c.token);
    } else {
      var k' := if kept then k - 1 else k;
      assert idx[k] == restIdx[k'] && items[k] == rest[k'];
      CollectedAt(children, table, from + 1, k');
    }
  }

  /** One step of `KeptIndices`: the child at `from` is kept or dropped. */
  lemma KeptIndicesStep(children: seq<Child>, table: seq<set<string>>, from: nat)
    requires InTable(children, table) && from < |children|
    ensures var c := children[from];
            KeptIndices(children, table, from) ==
            (if Kept(c, table[c.node]) then [from] else []) + KeptIndices(children, table, from + 1)
  {
  }

  /** Every kept child is collected: nothing that passes the filter is dropped.
   *  `k` is the position of its item. */
  lemma {:induction false} KeptChildIsCollected(children: seq<Child>, table: seq<set<string>>, from: nat, i: nat)
    returns (k: nat)
    requires InTable(children, table) && from <= i < |children|
    requires Kept(children[i], table[children[i].node])
    ensures k < |KeptIndices(children, table, from)| && KeptIndices(children, table, from)[k] == i
    decreases i - from
  {
    KeptIndicesStep(children, table, from);
    if i == from {
      k := 0;
    } else {
      var c := children[from];
      var k' := KeptChildIsCollected(children, table, from + 1, i);
      k := if Kept(c, table[c.node]) then k' + 1 else k';
    }
  }

  /** The list's children are distinct nodes. */
  ghost predicate DistinctNodes(items: seq<Item>) {
    forall i, j :: 0 <= i < j < |items| ==> items[i].node != items[j].node
  }

  ghost predicate DistinctChildren(children: seq<Child>) {
    forall i, j :: 0 <= i < j < |children| ==> children[i].node != children[j].node
  }

  lemma CollectedDistinct(children: seq<Child>, table: seq<set<string>>)
    requires InTable(children, table) && DistinctChildren(children)
    ensures DistinctNodes(Collected(children, table))
  {
    var items := Collected(children, table);
    var idx := KeptIndices(children, table);
    forall k, l | 0 <= k < l < |items| ensures items[k].node != items[l].node {
      CollectedAt(children, table, 0, k);
      CollectedAt(children, table, 0, l);
    }
  }

  /** The key under which `token in oddEvenMap` looks up a token: JavaScript
   *  turns a null token into the key "null". */
  function Key(t: Token): (r: string)
    ensures r == "null" <==> t.None? || t.value == "null"
    ensures Tokened(t) ==> r == t.value
  {
    match t
    case None => "null"
    case Some(s) => s
  }

  /** The token is truthy: present and non-empty. Only such tokens are noted. */
  predicate Tokened(t: Token)
    ensures t == None || t == Some("") ==> !Tokened(t)
  {
    t.Some? && t.value != ""
  }

  /** Every present, non-empty token is truthy. */
  lemma PresentTokenIsTruthy(token: string)
    requires token != ""
    ensures Tokened(Some(token))
  {
  }

  /** The stripe of the item at index `i` when the first item has stripe `first`:
   *  true is `ext-line-odd`, false `ext-line-even`. */
  function Stripe(first: bool, i: nat): (r: bool)
    ensures i % 2 == 0 ==> r == first
    ensures i % 2 == 1 ==> r != first
  {
    if first then i % 2 == 0 else i % 2 == 1
  }

  /** Stripes alternate from one index to the next. */
  lemma StripeAlternates(first: bool, i: nat)
    ensures Stripe(first, i + 1) == !Stripe(first, i)
  {
  }

  /** The index of the first item whose key is in the memo. */
  function FirstHit(items: seq<Item>, memo: map<string, bool>, from: nat := 0): (r: Option<nat>)
    requires from <= |items|
    ensures r.Some? ==> from <= r.value < |items| && Key(items[r.value].token) in memo &&
                        forall k :: from <= k < r.value ==> Key(items[k].token) !in memo
    ensures r.None? ==> forall k :: from <= k < |items| ==> Key(items[k].token) !in memo
    decreases |items| - from
  {
    if from == |items| then None
    else if Key(items[from].token) in memo then Some(from)
    else FirstHit(items, memo, from + 1)
  }

  /** `isFirstItemOdd`: the stripe of the first item, chosen so that the first
   *  item known to the memo gets its remembered stripe again; false when no item
   *  is known. */
  function StartParity(items: seq<Item>, memo: map<string, bool>): (first: bool)
    ensures FirstHit(items, memo).None? ==> !first
    ensures FirstHit(items, memo).Some? ==>
              var i := FirstHit(items, memo).value;
              Stripe(first, i) == memo[Key(items[i].token)]
  {
    match FirstHit(items, memo)
    case None => false
    case Some(i) => if memo[Key(items[i].token)] then i % 2 == 0 else i % 2 == 1
  }

  /** With an empty memo (a first run, or right after a room switch) the first
   *  item gets the even stripe. */
  lemma EmptyMemoStartsEven(items: seq<Item>)
    ensures StartParity(items, map[]) == false
  {
  }

  /** The stripe `colorTimeline` starts from: false on a first run. */
  function FirstStripe(isFirst: bool, items: seq<Item>, memo: map<string, bool>): (r: bool)
    ensures isFirst || memo == map[] ==> !r
    ensures !isFirst && FirstHit(items, memo).Some? ==>
              var i := FirstHit(items, memo).value;
              Stripe(r, i) == memo[Key(items[i].token)]
  {
    if isFirst then false else StartParity(items, memo)
  }

  /** The index of the first item with a truthy token. */
  function FirstTokened(items: seq<Item>, from: nat := 0): (r: Option<nat>)
    requires from <= |items|
    ensures r.Some? ==> from <= r.value < |items| && Tokened(items[r.value].token) &&
                        forall k :: from <= k < r.value ==> !Tokened(items[k].token)
    ensures r.None? ==> forall k :: from <= k < |items| ==> !Tokened(items[k].token)
    decreases |items| - from
  {
    if from == |items| then None
    else if Tokened(items[from].token) then Some(from)
    else FirstTokened(items, from + 1)
  }

  /** The index of the last item below `upTo` with a truthy token. */
  function LastTokened(items: seq<Item>, upTo: nat): (r: Option<nat>)
    requires upTo <= |items|
    ensures r.Some? ==> r.value < upTo && Tokened(items[r.value].token) &&
                        forall k :: r.value < k < upTo ==> !Tokened(items[k].token)
    ensures r.None? ==> forall k :: 0 <= k < upTo ==> !Tokened(items[k].token)
  {
    if upTo == 0 then None
    else if Tokened(items[upTo - 1].token) then Some(upTo - 1)
    else LastTokened(items, upTo - 1)
  }

  /** The memo after noting the stripe of item `i`, when it has a truthy token. */
  function NoteOne(memo: map<string, bool>, first: bool, items: seq<Item>, at: Option<nat>): (r: map<string, bool>)
    requires at.Some? ==> at.value < |items| && Tokened(items[at.value].token)
    ensures at.None? ==> r == memo
    ensures at.Some? ==> var t := items[at.value].token.value;
              r.Keys == memo.Keys + {t} && r[t] == Stripe(first, at.value) &&
              forall k :: k in memo && k != t ==> r[k] == memo[k]
  {
    match at
    case None => memo
    case Some(i) => memo[items[i].token.value := Stripe(first, i)]
  }

  /** `noteOddEven`: the memo after noting the first and then the last item with a
   *  truthy token. */
  function Noted(first: bool, items: seq<Item>, memo: map<string, bool>): (r: map<string, bool>)
    ensures memo.Keys <= r.Keys
    ensures "" in r ==> "" in memo && r[""] == memo[""]
    ensures FirstTokened(items).None? ==> r == memo
  {
    NoteOne(NoteOne(memo, first, items, FirstTokened(items)), first, items, LastTokened(items, |items|))
  }

  /** Noting writes only the tokens of the first and the last tokened items, each
   *  with the stripe the coloring gives it (the last written wins when both
   *  carry the same token); every other key keeps its value, and nothing is
   *  written when no item has a token. */
  lemma NotedWritesBoundaries(first: bool, items: seq<Item>, memo: map<string, bool>)
    ensures var m := Noted(first, items, memo);
            var f := FirstTokened(items);
            var l := LastTokened(items, |items|);
            (f.None? <==> l.None?) &&
            (f.None? ==> m == memo) &&
            (f.Some? ==>
               f.value <= l.value &&
               m.Keys == memo.Keys + {items[f.value].token.value, items[l.value].token.value} &&
               m[items[l.value].token.value] == Stripe(first, l.value) &&
               (items[f.value].token != items[l.value].token ==>
                  m[items[f.value].token.value] == Stripe(first, f.value)) &&
               (forall k :: (k in memo && k != items[f.value].token.value &&
                             k != items[l.value].token.value) ==> m[k] == memo[k]))
  {
    var f := FirstTokened(items);
    var l := LastTokened(items, |items|);
    if f.Some? {
      assert l.Some? && f.value <= l.value;
    }
  }

  /** The classes of a node after `setClass` gives it a stripe: the opposite
   *  stripe class removed, its own added. */
  function Painted(classes: set<string>, odd: bool): (r: set<string>)
    ensures (OddClass in r) == odd && (EvenClass in r) == !odd
    ensures r - {OddClass, EvenClass} == classes - {OddClass, EvenClass}
  {
    (classes - {if odd then EvenClass else OddClass}) + {if odd then OddClass else EvenClass}
  }

  ghost predicate NodesIn(items: seq<Item>, table: seq<set<string>>) {
    forall i :: 0 <= i < |items| ==> items[i].node < |table|
  }

  /** The class table after `setClass(first, items)`: item `j` painted with
   *  `Stripe(first, j)`, in item order. */
  function Recolored(table: seq<set<string>>, items: seq<Item>, first: bool): (r: seq<set<string>>)
    requires NodesIn(items, table)
    ensures |r| == |table|
  {
    if items == [] then table
    else
      var n := |items| - 1;
      var t := Recolored(table, items[..n], first);
      t[items[n].node := Painted(t[items[n].node], Stripe(first, n))]
  }

  /** Coloring one more item paints just that item's node. */
  lemma RecoloredSnoc(table: seq<set<string>>, items: seq<Item>, first: bool, i: nat)
    requires NodesIn(items, table) && i < |items|
    ensures NodesIn(items[..i], table) && NodesIn(items[..i + 1], table)
    ensures var t := Recolored(table, items[..i], first);
            Recolored(table, items[..i + 1], first) ==
              t[items[i].node := Painted(t[items[i].node], Stripe(first, i))]
  {
    assert items[..i + 1][..i] == items[..i] && items[..i + 1][i] == items[i];
  }

  ghost predicate Untouched(items: seq<Item>, n: nat) {
    forall j :: 0 <= j < |items| ==> items[j].node != n
  }

  /** `setClass` leaves alone every node that is not an item's. */
  lemma {:induction false} RecoloredOutside(table: seq<set<string>>, items: seq<Item>, first: bool, m: nat)
    requires NodesIn(items, table) && m < |table| && Untouched(items, m)
    ensures Recolored(table, items, first)[m] == table[m]
    decreases |items|
  {
    if items != [] {
      var n := |items| - 1;
      assert Untouched(items[..n], m) by {
        forall j | 0 <= j < n ensures items[..n][j].node != m { assert items[..n][j] == items[j]; }
      }
      RecoloredOutside(table, items[..n], first, m);
    }
  }

  /** After `setClass`, item `j` carries exactly the stripe class of
   *  `Stripe(first, j)` and its other classes are as before. */
  lemma {:induction false} RecoloredAt(table: seq<set<string>>, items: seq<Item>, first: bool, j: nat)
    requires NodesIn(items, table) && DistinctNodes(items) && j < |items|
    ensures Recolored(table, items, first)[items[j].node] == Painted(table[items[j].node], Stripe(first, j))
    decreases |items|
  {
    var n := |items| - 1;
    var init := items[..n];
    var last := items[n].node;
    var t := Recolored(table, init, first);
    assert Recolored(table, items, first) == t[last := Painted(t[last], Stripe(first, n))];
    if j == n {
      assert Untouched(init, last);
      RecoloredOutside(table, init, first, last);
    } else {
      assert init[j] == items[j] && items[j].node != last;
      RecoloredAt(table, init, first, j);
    }
  }

  /** Neighbouring items get different stripes. */
  lemma RecoloredAlternates(table: seq<set<string>>, items: seq<Item>, first: bool, j: nat)
    requires NodesIn(items, table) && DistinctNodes(items) && j + 1 < |items|
    ensures var r := Recolored(table, items, first);
            (OddClass in r[items[j].node]) != (OddClass in r[items[j + 1].node])
  {
    RecoloredAt(table, items, first, j);
    RecoloredAt(table, items, first, j + 1);
    StripeAlternates(first, j);
  }

  /** Coloring the same items again with the same start changes nothing. */
  lemma RecoloredIdempotent(table: seq<set<string>>, items: seq<Item>, first: bool)
    requires NodesIn(items, table) && DistinctNodes(items)
    ensures Recolored(Recolored(table, items, first), items, first) == Recolored(table, items, first)
  {
    var once := Recolored(table, items, first);
    var twice := Recolored(once, items, first);
    forall n | 0 <= n < |table| ensures twice[n] == once[n] {
      if Untouched(items, n) {
        RecoloredOutside(table, items, first, n);
        RecoloredOutside(once, items, first, n);
      } else {
        var j :| 0 <= j < |items| && items[j].node == n;
        RecoloredAt(table, items, first, j);
        RecoloredAt(once, items, first, j);
        assert Painted(Painted(table[n], Stripe(first, j)), Stripe(first, j)) == Painted(table[n], Stripe(first, j));
      }
    }
  }

  /** The last tokened item's token is noted with its stripe. */
  lemma NotedAtLast(first: bool, items: seq<Item>, memo: map<string, bool>)
    requires LastTokened(items, |items|).Some?
    ensures var l := LastTokened(items, |items|).value;
            items[l].token.value in Noted(first, items, memo) &&
            Noted(first, items, memo)[items[l].token.value] == Stripe(first, l)
  {
  }

  /** With unique tokens, the first tokened item's token is noted with its
   *  stripe too. */
  lemma NotedAtFirst(first: bool, items: seq<Item>, memo: map<string, bool>)
    requires FirstTokened(items).Some? && UniqueTokens(items)
    ensures var f := FirstTokened(items).value;
            items[f].token.value in Noted(first, items, memo) &&
            Noted(first, items, memo)[items[f].token.value] == Stripe(first, f)
  {
    var f := FirstTokened(items).value;
    var l := LastTokened(items, |items|);
    assert l.Some? && f <= l.value;
    if f != l.value {
      assert items[f].token != items[l.value].token;
    }
  }

  /** The memo agrees with the classes just written: the last tokened item's
   *  token maps to the stripe class its node now carries, and so does the first
   *  tokened item's when tokens are unique. */
  lemma NotedMatchesClasses(table: seq<set<string>>, items: seq<Item>, first: bool, memo: map<string, bool>)
    requires NodesIn(items, table) && DistinctNodes(items)
    requires FirstTokened(items).Some?
    ensures var m := Noted(first, items, memo);
            var r := Recolored(table, items, first);
            var f := FirstTokened(items).value;
            var l := LastTokened(items, |items|).value;
            m[items[l].token.value] == (OddClass in r[items[l].node]) &&
            (UniqueTokens(items) ==> m[items[f].token.value] == (OddClass in r[items[f].node]))
  {
    var f := FirstTokened(items).value;
    assert LastTokened(items, |items|).Some?;
    NotedAtLast(first, items, memo);
    RecoloredAt(table, items, first, LastTokened(items, |items|).value);
    if UniqueTokens(items) {
      NotedAtFirst(first, items, memo);
      RecoloredAt(table, items, first, f);
    }
  }

  /** No key of the memo can be the key of an untokened item. */
  ghost predicate NoUntokenedKeys(memo: map<string, bool>) {
    "" !in memo && "null" !in memo
  }

  /** No item carries the literal token "null", which would collide with the key
   *  of an absent token. */
  ghost predicate NoNullToken(items: seq<Item>) {
    forall i :: 0 <= i < |items| ==> items[i].token != Some("null")
  }

  /** Distinct items carry distinct truthy tokens. */
  ghost predicate UniqueTokens(items: seq<Item>) {
    forall i, j :: 0 <= i < j < |items| && Tokened(items[i].token) ==> items[i].token != items[j].token
  }

  /** Re-deriving the start from a stripe remembered at index `f`, when that item
   *  now sits `p` places further on, keeps every stripe as it was. */
  lemma StripeShift(first: bool, f: nat, p: nat, again: bool, j: nat)
    requires Stripe(again, p + f) == Stripe(first, f)
    ensures Stripe(again, p + j) == Stripe(first, j)
  {
  }

  /** The first memo hit is at `i` when the key at `i` is known and none before. */
  lemma FirstHitAt(items: seq<Item>, memo: map<string, bool>, i: nat)
    requires i < |items| && Key(items[i].token) in memo
    requires forall k :: 0 <= k < i ==> Key(items[k].token) !in memo
    ensures FirstHit(items, memo) == Some(i)
  {
  }

  /** Noting keeps the first tokened item's stripe under its token when tokens
   *  are unique, and writes no key an untokened item could have. */
  lemma NotedRemembersFirst(first: bool, prev: seq<Item>, memo: map<string, bool>)
    requires FirstTokened(prev).Some?
    requires UniqueTokens(prev) && NoNullToken(prev) && NoUntokenedKeys(memo)
    ensures var m := Noted(first, prev, memo);
            var f := FirstTokened(prev).value;
            NoUntokenedKeys(m) && Key(prev[f].token) in m && m[Key(prev[f].token)] == Stripe(first, f)
  {
    NotedAtFirst(first, prev, memo);
    NotedWritesBoundaries(first, prev, memo);
  }

  /** In `before + prev + after`, the first memo hit is the first tokened item
   *  of `prev` when it is known and nothing before it is. */
  lemma FirstHitInExtension(before: seq<Item>, prev: seq<Item>, after: seq<Item>, m: map<string, bool>, f: nat)
    requires f < |prev| && Key(prev[f].token) in m && NoUntokenedKeys(m)
    requires forall k :: 0 <= k < f ==> !Tokened(prev[k].token)
    requires forall i :: 0 <= i < |before| ==> Key(before[i].token) !in m
    ensures FirstHit(before + prev + after, m) == Some(|before| + f)
    ensures Stripe(StartParity(before + prev + after, m), |before| + f) == m[Key(prev[f].token)]
  {
    var items := before + prev + after;
    forall k | 0 <= k < |before| + f ensures Key(items[k].token) !in m {
      if k < |before| {
        assert items[k] == before[k];
      } else {
        assert items[k] == prev[k - |before|];
      }
    }
    assert items[|before| + f] == prev[f];
    FirstHitAt(items, m, |before| + f);
  }

  /** After noting `prev`, a run over `before + prev + after` gives the first
   *  tokened item of `prev` the stripe it had. */
  lemma FirstTokenedKeepsStripe(first: bool, prev: seq<Item>, memo: map<string, bool>,
                                before: seq<Item>, after: seq<Item>)
    requires FirstTokened(prev).Some?
    requires UniqueTokens(prev) && NoNullToken(prev) && NoUntokenedKeys(memo)
    requires forall i :: 0 <= i < |before| ==> Key(before[i].token) !in Noted(first, prev, memo)
    ensures var f := FirstTokened(prev).value;
            Stripe(StartParity(before + prev + after, Noted(first, prev, memo)), |before| + f) == Stripe(first, f)
  {
    NotedRemembersFirst(first, prev, memo);
    FirstHitInExtension(before, prev, after, Noted(first, prev, memo), FirstTokened(prev).value);
  }

  /** The coloring is not flipped when items are added: after a run that colored
   *  `prev` from stripe `first` (with at least one tokened item) and noted its
   *  boundaries, a later run over `before + prev + after`, where no item of
   *  `before` is known to the memo, gives every item of `prev` its earlier
   *  stripe. */
  lemma StableUnderExtension(first: bool, prev: seq<Item>, memo: map<string, bool>,
                             before: seq<Item>, after: seq<Item>)
    requires FirstTokened(prev).Some?
    requires UniqueTokens(prev) && NoNullToken(prev) && NoUntokenedKeys(memo)
    requires forall i :: 0 <= i < |before| ==> Key(before[i].token) !in Noted(first, prev, memo)
    ensures var next := StartParity(before + prev + after, Noted(first, prev, memo));
            forall j :: 0 <= j < |prev| ==> Stripe(next, |before| + j) == Stripe(first, j)
  {
    FirstTokenedKeepsStripe(first, prev, memo, before, after);
    var next := StartParity(before + prev + after, Noted(first, prev, memo));
    var f := FirstTokened(prev).value;
    forall j | 0 <= j < |prev| ensures Stripe(next, |before| + j) == Stripe(first, j) {
      StripeShift(first, f, |before|, next, j);
    }
  }

  /** Two runs over a growing timeline: tokens "a", "b", "c" colored as a first
   *  run get even, odd, even stripes and the memo {a: even, c: even}; the next
   *  run over "a" .. "d" finds "a" at index 0 and keeps every stripe. */
  lemma TwoRunScenario()
    ensures var three := [Item(0, Some("a")), Item(1, Some("b")), Item(2, Some("c"))];
            var four := three + [Item(3, Some("d"))];
            var first := FirstStripe(true, three, map[]);
            var memo := Noted(first, three, map[]);
            var next := FirstStripe(false, four, memo);
            !first && memo == map["a" := false, "c" := false] && !next &&
            [Stripe(next, 0), Stripe(next, 1), Stripe(next, 2), Stripe(next, 3)] == [false, true, false, true]
  {
    var three := [Item(0, Some("a")), Item(1, Some("b")), Item(2, Some("c"))];
    var four := three + [Item(3, Some("d"))];
    assert FirstTokened(three) == Some(0);
    assert LastTokened(three, 3) == Some(2);
    var memo := Noted(false, three, map[]);
    assert memo == map["a" := false, "c" := false];
    assert FirstHit(four, memo) == Some(0);
  }
}
