# riot-compact: timeline coloring and update scheduling, in Dafny

riot-compact is a browser extension that restyles the Riot/Element chat client. It
watches the message list of the current room and gives each timeline entry an
alternating `ext-line-odd` / `ext-line-even` class. The coloring must stay stable
while the client inserts entries, scrolls, replaces the list or switches rooms.
This project models the synchronisation core of `riot-compact.js` and proves the
properties that core depends on.

- **Debounce** (`debounce.dfy`) models the `Task` class. Requests to run a unit
  of work `f` that arrive within `timeout` of the last execution are folded into
  a single deferred execution. The clock is an explicit `now` argument and the
  `setTimeout` callback is the method `Fire`. Ghost fields count the executions
  of `f`, count the armed timer callbacks and record when the armed callback is
  due. Pure step functions (`AfterRun`, `AfterFire`, `Replay`) describe the same
  machine over event traces. The trace lemmas are stated over them.
- **Observers** (`observers.dfy`) models `AddedNodeObservers`, the registry of
  mutation observers. An observer is an opaque object whose `disconnect()` may
  throw. The caller says which observers fail through the `failing` set.
- **Stripes** (`stripes.dfy`) is the coloring as values:
  - which children of the list are colored (`Collected`);
  - the start stripe derived from the memo `oddEvenMap` (`StartParity`);
  - what the memo records (`Noted`);
  - the class lists after `setClass` (`Recolored`, `Painted`).
  The stability lemma is stated here.
- **Timeline** (`timeline.dfy`) models `TimelineModifier`. Each method works in
  place, on the memo field and on an array of class sets indexed by node. It runs
  the source's loops and is proved equal to the Stripes functions. The module
  also models the bodies of the room-switch and timeline-reconstruction tasks.

Behaviour of the code worth knowing:
- A first run gives the first item `ext-line-even`, because `firstItemIsOdd` is
  false (riot-compact.js:283, 345). `Stripes.TwoRunScenario` states what the
  code produces.
- A deferred run is armed for the full `timeout` from the request
  (riot-compact.js:50), not for the time left in the window. So it fires at the
  request time plus `timeout`, which may be later than `lastTime + timeout`.
- `token in this.oddEvenMap` converts a null token to the key `"null"`
  (`Stripes.Key`). A tokenless item therefore matches the memo only if some item
  once carried the literal token `"null"`.

## Model

| member | source | states |
|---|---|---|
| Debounce.AfterRun | riot-compact.js:37-57 | With a timer pending, a request changes nothing. Otherwise `f` runs exactly when the cooldown since `lastTime` has passed, and then `lastTime` is the request time and no timer is set. When `f` does not run, `lastTime` is kept. A state with at most one outstanding callback keeps that property |
| Debounce.AfterFire | riot-compact.js:44-50 | The callback clears the timer and leaves no callback outstanding. It sets `lastTime` to the firing time and runs `f` once more |
| Debounce.Task.constructor | riot-compact.js:30-35 | A new task has no timer, `lastTime` 0 and no executions of `f`, with the given timeout |
| Debounce.Task.Run | riot-compact.js:37-57 | With a timer pending, nothing changes and `f` is not run. Otherwise, if `now >= lastTime + timeout`, `f` runs once, `lastTime := now` and no timer is left. Otherwise exactly one timer is armed, due at `now + timeout`, and `f` and `lastTime` are unchanged. At most one callback stays outstanding |
| Debounce.Task.Fire | riot-compact.js:44-50 | The armed callback clears `timer`, sets `lastTime` to the firing time and runs `f` exactly once |
| Debounce.AtMostOneTimer | riot-compact.js:37-51 | Along any possible event trace, at most one timer callback is outstanding, and only while `timer` is set |
| Debounce.BurstWhilePendingIsAbsorbed | riot-compact.js:37-40 | Any burst of `run()` requests while a timer is pending leaves the state unchanged and runs nothing |
| Debounce.BurstRunsOnce | riot-compact.js:16-51 | A request inside the cooldown, followed by any burst of requests and then the timer firing, runs `f` exactly once. It sets `lastTime` to the firing time and leaves no timer |
| Debounce.ExecutionsAreSpaced | riot-compact.js:16-57 | With a clock that does not go backwards, each execution starts at least `timeout` after the previous one, so `n` executions advance `lastTime` by at least `n * timeout` |
| Debounce.FreshTaskRunsImmediately | riot-compact.js:34-56 | A fresh task (`lastTime` 0) runs `f` at once on its first request whenever `now >= timeout` |
| Observers.Observer.constructor | riot-compact.js:69-78 | A new observer watches its target node, is connected, and has not yet been asked to disconnect |
| Observers.Observer.Disconnect | riot-compact.js:84-87 | `disconnect()` either throws, leaving the observer as it was, or disconnects it. Each call is counted |
| Observers.AddedNodeObservers.constructor | riot-compact.js:62-64 | The registry starts empty |
| Observers.AddedNodeObservers.Add | riot-compact.js:68-79 | Exactly one fresh, connected observer of the node is appended, and the existing ones are kept in order |
| Observers.AddedNodeObservers.DisconnectAll | riot-compact.js:82-90 | `disconnect()` is tried exactly once on every registered observer. A failure is swallowed and does not stop the rest. Exactly the non-failing observers end up disconnected, and the registry is left empty |
| Observers.AddedNodeObservers.HasAddedNodes | riot-compact.js:92-99 | True iff some mutation record inserted at least one node |
| Stripes.Lower | riot-compact.js:292 | Lower-casing keeps the length of the node name |
| Stripes.LowerLowers | riot-compact.js:292 | Every character of the name goes through the ASCII lower-casing, and no upper-case ASCII letter is left |
| Stripes.Kept | riot-compact.js:292-311 | Only `li` and `div` children are kept. A child that has the read-marker class and lacks the summary class is never kept |
| Stripes.Collected | riot-compact.js:289-320 | The collected items are no more than the children, and each refers to a node of the document |
| Stripes.KeptIndices | riot-compact.js:289-320 | The positions items are taken from are in range and strictly increasing |
| Stripes.KeptIndicesLength | riot-compact.js:289-320 | There is exactly one kept position per collected item |
| Stripes.CollectedAt | riot-compact.js:291-317 | There is one kept position per item, and the k-th item is the k-th kept child (an `li` that is not the read marker, or a `div` that is an event summary), with its node and its token, an absent token included |
| Stripes.KeptChildIsCollected | riot-compact.js:291-317 | No kept child is dropped. The lemma returns the position of the item it became |
| Stripes.CollectedDistinct | riot-compact.js:289-320 | Distinct children give items on distinct nodes |
| Stripes.Key | riot-compact.js:328 | The memo key is `"null"` exactly for a null token or the literal token `"null"`. A truthy token is its own key |
| Stripes.FirstHit | riot-compact.js:325-333 | The index of the first item whose key is in the memo, or None exactly when no item's key is |
| Stripes.StartParity | riot-compact.js:324-336 | The start stripe gives the first memo-known item its remembered stripe again. It is false when no item is known |
| Stripes.FirstStripe | riot-compact.js:283 | A first run, or a run with an empty memo, starts from the even stripe. Any other run gives the first memo-known item its remembered stripe |
| Stripes.EmptyMemoStartsEven | riot-compact.js:324-336 | With the memo emptied (a first run, or after a room switch), coloring starts from the even stripe |
| Stripes.Stripe | riot-compact.js:339-347 | An item an even number of places after the first has the first's stripe, and one an odd number of places after has the other stripe |
| Stripes.StripeAlternates | riot-compact.js:346 | The stripes of neighbouring indices differ |
| Stripes.Tokened | riot-compact.js:364 | A null token and the empty token are not truthy |
| Stripes.PresentTokenIsTruthy | riot-compact.js:373 | A present, non-empty token is truthy |
| Stripes.FirstTokened | riot-compact.js:361-368 | The index of the first item with a truthy token, or None exactly when there is none |
| Stripes.LastTokened | riot-compact.js:370-377 | The index of the last item with a truthy token, or None exactly when there is none |
| Stripes.NoteOne | riot-compact.js:354-359 | Noting one item adds its token as a key holding that item's stripe and keeps every other key's value. With no item, nothing changes |
| Stripes.Noted | riot-compact.js:353-378 | Noting never drops a key and never records the empty token. It leaves the memo unchanged when no item has a truthy token |
| Stripes.NotedWritesBoundaries | riot-compact.js:353-378 | Noting adds only the tokens of the first and last tokened items and leaves every other key's value unchanged. The last item's token gets the stripe the coloring gives that item, and so does the first's unless it carries the same token. Nothing is written when no item has a token |
| Stripes.NotedAtLast | riot-compact.js:370-377 | The last tokened item's token is noted with that item's stripe |
| Stripes.NotedAtFirst | riot-compact.js:361-368 | With unique tokens, the first tokened item's token is noted with that item's stripe |
| Stripes.Painted | riot-compact.js:343-345 | A painted node carries exactly one of `ext-line-odd` / `ext-line-even`, the one asked for, and its other classes are unchanged |
| Stripes.Recolored | riot-compact.js:339-348 | Painting keeps the number of nodes. What each node then carries is stated by `RecoloredAt` and `RecoloredOutside` |
| Stripes.RecoloredAt | riot-compact.js:339-348 | After `setClass(first, items)`, item `j` carries `ext-line-odd` iff `first` XOR (`j` odd), and `ext-line-even` otherwise. Its other classes are as before |
| Stripes.RecoloredOutside | riot-compact.js:339-348 | `setClass` leaves every node that is not an item's untouched |
| Stripes.RecoloredAlternates | riot-compact.js:339-348 | After `setClass`, neighbouring items carry different stripes |
| Stripes.RecoloredIdempotent | riot-compact.js:341-345 | Applying `setClass` again with the same start changes nothing |
| Stripes.NotedMatchesClasses | riot-compact.js:350-378 | After one coloring, the memo agrees with the classes just written for the noted boundary items |
| Stripes.StableUnderExtension | riot-compact.js:281-378 | Suppose a run colored `prev`, which has a tokened item, and noted it. A later non-first run over `before + prev + after`, where no item of `before` is known to the memo, gives every item of `prev` the stripe it had |
| Stripes.TwoRunScenario | riot-compact.js:281-378 | Tokens a, b, c colored on a first run get even, odd, even and the memo {a: even, c: even}. A following run over a .. d keeps those stripes and gives d odd |
| Timeline.TimelineModifier.constructor | riot-compact.js:174-201 | The memo is empty, the registry is empty, and all three tasks are fresh, with a 500 ms cooldown |
| Timeline.TimelineModifier.CollectItems | riot-compact.js:289-320 | The loop returns exactly `Collected` of the list's children |
| Timeline.TimelineModifier.IsFirstItemOdd | riot-compact.js:324-336 | The loop returns exactly `StartParity` of the items and the current memo |
| Timeline.TimelineModifier.NoteOddEven | riot-compact.js:353-378 | The two loops leave the memo equal to `Noted` of the old memo |
| Timeline.TimelineModifier.SetClass | riot-compact.js:339-348 | The loop leaves the class table equal to `Recolored` of the old table, and changes nothing else |
| Timeline.TimelineModifier.ColorTimeline | riot-compact.js:281-286 | Collects the items and starts from false on a first run, otherwise from `StartParity`. It updates the memo to `Noted` and the classes to `Recolored` |
| Timeline.TimelineModifier.RoomSwitch | riot-compact.js:191-195 | Empties the memo, tries `disconnect()` once on every observer and empties the registry. When the list is found, it recolors it as a first run would, from the even stripe, with the memo noted from empty. When the lookup gives up, `update` throws before coloring: the memo stays empty and no class changes |
| Timeline.TimelineModifier.TimelineReconstruct | riot-compact.js:197-200 | Tries `disconnect()` once on every observer and empties the registry. When the list is found, it recolors it from the kept memo. When the lookup gives up, `update` throws before coloring: the memo and every class are left as they were |

## Left out

- `sleep` and `waitForClassName` (riot-compact.js:1-14): DOM polling with real timers. The task bodies take the lookup's outcome as an argument instead: the list's children, or None when the lookup gives up after its twenty tries. In the None case `update` (riot-compact.js:207-214) throws in `addDate` at riot-compact.js:272, before `colorTimeline` and before any hook is installed.
- Creating MutationObserver objects and calling `observe()`, the `hook*` methods, `isListAlive`, `update`, `apply` and `onLoad` (riot-compact.js:68-79, 203-255, 381-389): asynchronous DOM wiring and identity checks against live nodes. An observer is a handle that remembers its target node, and the callback it runs is not modelled.
- RoomSwitch: runs the body of `roomSwitchTask` (riot-compact.js:191-195) as one step. In the source the body suspends at `await this.update(false)` while `waitForClassName` polls (riot-compact.js:5-14). During that wait a `newTimelineItemTask` callback can fire and note the old list's tokens into the emptied memo, and a `timelineReconstructTask` body can interleave. The contract holds only when no other task body runs during the await. It also does not model the observers that `update(false)` installs again after the disconnect, because the `hook*` methods are left out.
- TimelineReconstruct: runs the body of `timelineReconstructTask` (riot-compact.js:197-200) as one step. No other task body runs during its `await this.update(false)`, which in the source can interleave with a `newTimelineItemTask` callback or a `roomSwitchTask` body. It also does not model the observers that `update(false)` installs again after the disconnect.
- `ThemeToClass` (riot-compact.js:103-171): body theme classes driven by stylesheet-link attributes. It is not part of the synchronisation logic.
- `addDate` (riot-compact.js:265-278): it depends on the host's `Date` parsing and on local-time month and day, which depend on the time zone.
- `Date.now`, `setTimeout` and `.catch(console.error)`: replaced by the `now` argument, the `Fire` method and the ghost counter `runs`. Logging has no observable state.
- The work `f` each task runs is not tied to the task: `f` is counted, and the three task bodies are separate methods of `TimelineModifier`.
- Debounce.Task.Fire: requires that the timer is armed and due. The event loop runs a `setTimeout` callback only after its delay, and only if it was scheduled.
- Stripes.StableUnderExtension: also assumes that tokens within `prev` are unique, that no item carries the literal token `"null"`, and that the memo has no `""` or `"null"` key. Without these, the first item known to the memo may be an untokened item whose null token collides with a memo key, and the first and last tokened items may share a token.
- Stripes.Lower: `toLowerCase` is modelled on ASCII letters only. Element names are ASCII.
- Inherited properties of a JavaScript object (a token such as `"toString"` is `in {}`) are not modelled. The memo is a plain map.
