/**
 * The `Task` of riot-compact.js: a unit of work `f` that may be requested many
 * times, where requests arriving within `timeout` of the previous execution are
 * folded into one deferred execution.
 *
 * The clock is an explicit `now` argument, the `setTimeout` callback is the
 * method `Fire`, and the executions of `f` are counted in a ghost counter.
 */
module Debounce {
  import opened Wrappers

  /** The abstract state of a Task.
   *  pending:  the `timer` field holds a handle
   *  dueAt:    the earliest time the armed callback may run
   *  lastTime: the `lastTime` field
   *  armed:    timer callbacks scheduled and not yet run
   *  runs:     how many times `f` has been invoked */
  datatype TaskState = TaskState(pending: bool, dueAt: int, lastTime: int, armed: nat, runs: nat)

  /** What the event loop can do to a Task: a caller requests `run()` at a time,
   *  or the armed timer callback runs at a time. */
  datatype Event = RunAt(time: int) | FireAt(time: int)

  /** A freshly constructed Task: no timer, `lastTime` 0. */
  const Initial := TaskState(false, 0, 0, 0, 0)

  /** At most one timer callback is outstanding, and it is outstanding exactly
   *  when the `timer` field is set. */
  ghost predicate OneTimer(s: TaskState) {
    s.armed == if s.pending then 1 else 0
  }

  /** OneTimer, and an armed callback is not due before a full `timeout` after
   *  the last execution. */
  ghost predicate Coherent(s: TaskState, timeout: nat) {
    OneTimer(s) && (s.pending ==> s.dueAt >= s.lastTime + timeout)
  }

  /** The state after `run()` at time `now`. */
  function AfterRun(s: TaskState, timeout: nat, now: int): (r: TaskState)
    ensures s.pending ==> r == s
    ensures !s.pending ==> (r.runs == s.runs + 1 <==> now >= s.lastTime + timeout)
    ensures r.runs == s.runs + 1 ==> r.lastTime == now && !r.pending
    ensures r.runs == s.runs ==> r.lastTime == s.lastTime
    ensures OneTimer(s) ==> OneTimer(r)
  {
    if s.pending then s
    else if now < s.lastTime + timeout then s.(pending := true, dueAt := now + timeout, armed := s.armed + 1)
    else s.(lastTime := now, runs := s.runs + 1)
  }

  /** The armed callback may run at `now`. */
  predicate CanFire(s: TaskState, now: int) {
    s.armed > 0 && now >= s.dueAt
  }

  /** The state after the armed callback runs at time `now`. */
  function AfterFire(s: TaskState, now: int): (r: TaskState)
    requires s.armed > 0
    ensures OneTimer(s) ==> OneTimer(r) && r.armed == 0
    ensures !r.pending && r.lastTime == now && r.runs == s.runs + 1
  {
    s.(pending := false, lastTime := now, armed := s.armed - 1, runs := s.runs + 1)
  }

  /** The state after a sequence of events, or None when the sequence fires a
   *  callback that is not armed or not yet due. */
  function Replay(s: TaskState, timeout: nat, events: seq<Event>): Option<TaskState>
    decreases |events|
  {
    if events == [] then Some(s)
    else match events[0]
      case RunAt(t) => Replay(AfterRun(s, timeout, t), timeout, events[1..])
      case FireAt(t) =>
        if CanFire(s, t) then Replay(AfterFire(s, t), timeout, events[1..]) else None
  }

  /** A burst of `run()` requests at the given times. */
  function Burst(times: seq<int>): (events: seq<Event>)
    ensures |events| == |times|
    ensures forall i :: 0 <= i < |times| ==> events[i] == RunAt(times[i])
  {
    if times == [] then [] else [RunAt(times[0])] + Burst(times[1..])
  }

  /** Event times never go backwards, and none is before `from`. */
  ghost predicate Monotone(events: seq<Event>, from: int) {
    (forall i :: 0 <= i < |events| ==> events[i].time >= from) &&
    (forall i, j :: 0 <= i < j < |events| ==> events[i].time <= events[j].time)
  }

  lemma {:induction false} ReplayAppend(s: TaskState, timeout: nat, a: seq<Event>, b: seq<Event>)
    ensures Replay(s, timeout, a + b) ==
            match Replay(s, timeout, a)
              case None => None
              case Some(m) => Replay(m, timeout, b)
    decreases |a|
  {
    if a == [] {
      assert a + b == b;
    } else {
      assert (a + b)[0] == a[0];
      assert (a + b)[1..] == a[1..] + b;
      match a[0]
        case RunAt(t) => ReplayAppend(AfterRun(s, timeout, t), timeout, a[1..], b);
        case FireAt(t) =>
          if CanFire(s, t) { ReplayAppend(AfterFire(s, t), timeout, a[1..], b); }
    }
  }

  /** `run()` never arms a second timer: along any possible sequence of events
   *  at most one callback is outstanding, exactly while `timer` is set. */
  lemma {:induction false} AtMostOneTimer(s: TaskState, timeout: nat, events: seq<Event>)
    requires OneTimer(s)
    ensures Replay(s, timeout, events).Some? ==> OneTimer(Replay(s, timeout, events).value)
    decreases |events|
  {
    if events != [] {
      match events[0]
        case RunAt(t) => AtMostOneTimer(AfterRun(s, timeout, t), timeout, events[1..]);
        case FireAt(t) =>
          if CanFire(s, t) { AtMostOneTimer(AfterFire(s, t), timeout, events[1..]); }
    }
  }

  /** While a timer is pending, any burst of `run()` requests changes nothing and
   *  invokes nothing: the pending callback covers them. */
  lemma {:induction false} BurstWhilePendingIsAbsorbed(s: TaskState, timeout: nat, times: seq<int>)
    requires s.pending
    ensures Replay(s, timeout, Burst(times)) == Some(s)
    decreases |times|
  {
    if times != [] {
      assert Burst(times)[1..] == Burst(times[1..]);
      BurstWhilePendingIsAbsorbed(s, timeout, times[1..]);
    }
  }

  /** A request inside the cooldown window arms the one timer; any further burst
   *  of requests is folded into it; when it fires, `f` has run exactly once more,
   *  `lastTime` is the firing time and no timer is left. */
  lemma BurstRunsOnce(s: TaskState, timeout: nat, first: int, burst: seq<int>, fireTime: int)
    requires OneTimer(s) && !s.pending
    requires first < s.lastTime + timeout
    requires fireTime >= first + timeout
    ensures var r := Replay(s, timeout, [RunAt(first)] + Burst(burst) + [FireAt(fireTime)]);
            r.Some? && r.value.runs == s.runs + 1 && r.value.lastTime == fireTime &&
            !r.value.pending && r.value.armed == 0
  {
    var armedState := AfterRun(s, timeout, first);
    assert Replay(s, timeout, [RunAt(first)]) == Some(armedState);
    ReplayAppend(s, timeout, [RunAt(first)], Burst(burst));
    BurstWhilePendingIsAbsorbed(armedState, timeout, burst);
    ReplayAppend(s, timeout, [RunAt(first)] + Burst(burst), [FireAt(fireTime)]);
  }

  /** One possible step keeps Coherent, never moves `lastTime` back, runs `f`
   *  at most once, and only a full `timeout` after the previous execution. */
  lemma StepSpacing(s: TaskState, timeout: nat, e: Event)
    requires Coherent(s, timeout) && e.time >= s.lastTime
    requires e.RunAt? || CanFire(s, e.time)
    ensures var n := if e.RunAt? then AfterRun(s, timeout, e.time) else AfterFire(s, e.time);
            Coherent(n, timeout) && s.lastTime <= n.lastTime <= e.time &&
            (n.runs == s.runs || (n.runs == s.runs + 1 && n.lastTime >= s.lastTime + timeout))
  {
  }

  /** Multiplication distributes over addition; `ExecutionsAreSpaced` adds up
   *  the spacing of consecutive steps with it. */
  lemma Distributes(t: nat, a: nat, b: nat)
    ensures t * a + t * b == t * (a + b)
  {
  }

  /** The debounce guarantee: along any possible sequence of events with a clock
   *  that does not go backwards, every execution of `f` starts at least `timeout`
   *  after the previous one, so `n` executions take at least `n * timeout`. */
  lemma {:induction false} ExecutionsAreSpaced(s: TaskState, timeout: nat, events: seq<Event>)
    requires Coherent(s, timeout)
    requires Monotone(events, s.lastTime)
    ensures var r := Replay(s, timeout, events);
            r.Some? ==> r.value.runs >= s.runs &&
                        r.value.lastTime >= s.lastTime + timeout * (r.value.runs - s.runs)
    decreases |events|
  {
    if events == [] {
      return;
    }
    var e := events[0];
    if e.FireAt? && !CanFire(s, e.time) {
      return;
    }
    var next := if e.RunAt? then AfterRun(s, timeout, e.time) else AfterFire(s, e.time);
    assert Replay(s, timeout, events) == Replay(next, timeout, events[1..]);
    StepSpacing(s, timeout, e);
    assert Monotone(events[1..], next.lastTime);
    ExecutionsAreSpaced(next, timeout, events[1..]);
    var r := Replay(next, timeout, events[1..]);
    if r.Some? {
      var a := next.runs - s.runs;
      var b := r.value.runs - next.runs;
      assert next.lastTime >= s.lastTime + timeout * a;
      Distributes(timeout, a, b);
    }
  }

  /** A fresh Task runs `f` immediately on its first request when the clock
   *  already reads at least `timeout` (its `lastTime` starts at 0). */
  lemma FreshTaskRunsImmediately(timeout: nat, now: int)
    requires now >= timeout
    ensures AfterRun(Initial, timeout, now) == TaskState(false, 0, now, 0, 1)
  {
  }

  /** The Task object of riot-compact.js. */
  class Task {
    const timeout: nat
    /** The `timer` field: a handle is set (true) or it is null (false). */
    var timer: bool
    var lastTime: int
    ghost var dueAt: int
    ghost var armed: nat
    ghost var runs: nat

    ghost function State(): TaskState
      reads this
    {
      TaskState(timer, dueAt, lastTime, armed, runs)
    }

    ghost predicate Valid()
      reads this
    {
      OneTimer(State())
    }

    constructor (timeout: nat)
      ensures Valid() && this.timeout == timeout && State() == Initial
    {
      this.timeout := timeout;
      timer := false;
      lastTime := 0;
      dueAt := 0;
      armed := 0;
      runs := 0;
    }

    /** `run()`: a no-op while a timer is pending; otherwise `f` runs now if
     *  `timeout` has elapsed since `lastTime`, else one timer is armed for the
     *  full `timeout`. */
    method Run(now: int)
      requires Valid()
      modifies this
      ensures Valid()
      ensures State() == AfterRun(old(State()), timeout, now)
      ensures old(timer) ==> State() == old(State())
      ensures !old(timer) && now >= old(lastTime) + timeout ==>
                runs == old(runs) + 1 && lastTime == now && !timer && armed == 0
      ensures !old(timer) && now < old(lastTime) + timeout ==>
                runs == old(runs) && lastTime == old(lastTime) && timer && armed == 1 &&
                dueAt == now + timeout
    {
      if timer {
        return;
      }
      if now < lastTime + timeout {
        timer := true;
        dueAt := now + timeout;
        armed := armed + 1;
        return;
      }
      lastTime := now;
      runs := runs + 1;
    }

    /** The armed timer callback: clears `timer`, sets `lastTime` to the firing
     *  time and runs `f` once. The event loop runs it only once it is due. */
    method Fire(now: int)
      requires Valid() && timer && now >= dueAt
      modifies this
      ensures Valid()
      ensures State() == AfterFire(old(State()), now)
      ensures !timer && armed == 0 && lastTime == now && runs == old(runs) + 1
    {
      timer := false;
      armed := armed - 1;
      lastTime := now;
      runs := runs + 1;
    }
  }
}
