/**
 The event engine as a state machine, the calendar queue as its implementation,
 and what holds over every run.
 */
module EventEngine {
  import opened Bits
  import opened Callbacks
  import opened EventQueue

  // idle: nothing is left to do in the current cycle.
  datatype State = State(now: nat, idle: bool, pending: set<Callback>)

  // Skip: a call that the engine does not take.
  datatype Action = Schedule(e: Callback) | Deliver(e: Callback) | Idle | Tick | Skip

  ghost const INITIAL := State(0, true, {})

  ghost predicate Step(s: State, a: Action, t: State) {
    match a
    case Schedule(e) => e !in s.pending && s.now < e.time && t == s.(pending := s.pending + {e})
    case Deliver(e) => e in s.pending && e.time == s.now && t == s.(pending := s.pending - {e}) &&
                       forall m | m in s.pending && m.time == s.now :: e.priority <= m.priority
    case Idle => (forall m | m in s.pending :: s.now < m.time) && t == s.(idle := true)
    case Skip => t == s
    case Tick => s.idle && t == s.(now := s.now + 1, idle := false)
  }

  // states[k] -- actions[k] --> states[k + 1]
  ghost predicate Run(states: seq<State>, actions: seq<Action>) {
    && |states| == |actions| + 1 && states[0] == INITIAL
    && forall k: nat | k < |actions| :: Step(states[k], actions[k], states[k + 1])
  }

  // Nothing is ever overdue.
  ghost predicate Punctual(s: State) {
    forall m | m in s.pending :: s.now <= m.time && (s.idle ==> s.now < m.time)
  }

  lemma {:induction false} NothingOverdue(states: seq<State>, actions: seq<Action>, k: nat)
    requires Run(states, actions) && k < |states|
    ensures Punctual(states[k])
  {
    if 0 < k {
      NothingOverdue(states, actions, k - 1);
      assert Step(states[k - 1], actions[k - 1], states[k - 1 + 1]);
    }
  }

  lemma {:induction false} ClockMonotone(states: seq<State>, actions: seq<Action>, i: nat, j: nat)
    requires Run(states, actions) && i <= j < |states|
    ensures states[i].now <= states[j].now
    decreases j
  {
    if i < j {
      ClockMonotone(states, actions, i, j - 1);
      assert Step(states[j - 1], actions[j - 1], states[j - 1 + 1]);
    }
  }

  ghost predicate Undelivered(actions: seq<Action>, e: Callback, i: nat, j: nat)
    requires i <= j <= |actions|
  {
    forall k | i <= k < j :: actions[k] != Deliver(e)
  }

  // An event waits in the queue until it is delivered.
  lemma {:induction false} Waits(states: seq<State>, actions: seq<Action>, e: Callback, i: nat, j: nat)
    requires Run(states, actions) && i <= j < |states| && e in states[i].pending
    requires Undelivered(actions, e, i, j)
    ensures e in states[j].pending
    decreases j
  {
    if i < j {
      Waits(states, actions, e, i, j - 1);
      assert Step(states[j - 1], actions[j - 1], states[j - 1 + 1]);
    }
  }

  // A delivered event does not come back unless it is scheduled again.
  lemma {:induction false} StaysAway(states: seq<State>, actions: seq<Action>, e: Callback, i: nat, j: nat)
    requires Run(states, actions) && i <= j < |states| && e !in states[i].pending
    requires forall k | i <= k < j :: actions[k] != Schedule(e)
    ensures e !in states[j].pending
    decreases j
  {
    if i < j {
      StaysAway(states, actions, e, i, j - 1);
      assert Step(states[j - 1], actions[j - 1], states[j - 1 + 1]);
    }
  }

  // An event scheduled once at step i fires exactly once, in its own cycle: never in another one,
  // never twice, and before the clock leaves that cycle.
  lemma FiresExactlyOnceOnTime(states: seq<State>, actions: seq<Action>, e: Callback, i: nat)
    requires Run(states, actions) && i < |actions| && actions[i] == Schedule(e)
    requires forall k | 0 <= k < |actions| && k != i :: actions[k] != Schedule(e)
    ensures forall k: nat | k < |actions| && actions[k] == Deliver(e) :: i < k && states[k].now == e.time
    ensures forall k: nat, l: nat |
        k < |actions| && l < |actions| && actions[k] == Deliver(e) && actions[l] == Deliver(e) :: k == l
    ensures e.time < states[|actions|].now ==> exists k: nat :: k < |actions| && actions[k] == Deliver(e)
  {
    forall k: nat | k < |actions| && actions[k] == Deliver(e)
      ensures i < k && states[k].now == e.time
    {
      assert Step(states[k], actions[k], states[k + 1]);
      if k < i {
        StaysAway(states, actions, e, 0, k);
      }
    }
    forall k: nat, l: nat | k < l < |actions| && actions[k] == Deliver(e)
      ensures actions[l] != Deliver(e)
    {
      assert Step(states[k], actions[k], states[k + 1]);
      assert Step(states[l], actions[l], states[l + 1]);
      StaysAway(states, actions, e, k + 1, l);
    }
    if forall k: nat | k < |actions| :: actions[k] != Deliver(e) {
      assert Step(states[i], actions[i], states[i + 1]);
      Waits(states, actions, e, i + 1, |actions|);
      NothingOverdue(states, actions, |actions|);
    }
  }

  // Within one cycle, events fire in nondecreasing priority.
  lemma UrgentFirst(states: seq<State>, actions: seq<Action>, i: nat, j: nat)
    requires Run(states, actions) && i < j < |actions| && states[i].now == states[j].now
    requires actions[i].Deliver? && actions[j].Deliver?
    ensures actions[i].e.priority <= actions[j].e.priority
  {
    assert Step(states[i], actions[i], states[i + 1]);
    assert Step(states[j], actions[j], states[j + 1]);
    WasThere(states, actions, actions[j].e, i, j);
  }

  // Events are scheduled ahead of their cycle, so all of a cycle's events are there when it starts.
  lemma {:induction false} WasThere(states: seq<State>, actions: seq<Action>, e: Callback, i: nat, j: nat)
    requires Run(states, actions) && i <= j < |states| && e in states[j].pending
    requires states[i].now == states[j].now == e.time
    ensures e in states[i].pending
    decreases j
  {
    if i < j {
      ClockMonotone(states, actions, i, j - 1);
      assert Step(states[j - 1], actions[j - 1], states[j - 1 + 1]);
      ClockMonotone(states, actions, j - 1, j);
      WasThere(states, actions, e, i, j - 1);
    }
  }

  // The engine over the calendar queue takes just these steps.
  class Engine {
    const cbQ: TQueue
    var globalClock: nat
    ghost var idle: bool

    ghost function Abs(): State
      reads this, cbQ, cbQ.access
    {
      State(globalClock, idle, cbQ.Pending())
    }

    ghost predicate Valid()
      reads this, cbQ, cbQ.access, cbQ.access.access, cbQ.access.accessTail, cbQ.access.nodes`tqNext
    {
      && cbQ.Valid() && cbQ.AccessSize == 256 && Punctual(Abs()) && globalClock + 0x1_0000 < MAX_TIME
      && (if idle then cbQ.minTime == globalClock else cbQ.minTime <= globalClock <= cbQ.minTime + 1)
    }

    // Nothing lies 2^32 cycles ahead or farther, so that the queue never mistakes a far event.
    ghost predicate Within()
      reads this, cbQ, cbQ.access
    {
      forall n | n in cbQ.Pending() :: n.time < cbQ.minTime + TWO32
    }

    constructor ()
      ensures Valid() && Within() && Abs() == INITIAL
      ensures fresh(cbQ) && fresh(cbQ.access) && fresh(cbQ.access.access) && fresh(cbQ.access.accessTail)
    {
      Pow2IsPow2(8);
      AndPredecessor(256);
      cbQ := new TQueue(256);
      globalClock, idle := 0, true;
    }

    // delta is a 16-bit count of cycles.
    method Schedule(cb: Callback, delta: nat)
      requires Valid() && 0 < delta < 0x1_0000 && cb !in cbQ.Pending() && cb.time == globalClock + delta
      modifies cbQ, cbQ.access, cbQ.access.access, cbQ.access.accessTail, cbQ.access.nodes`tqNext, cb`tqNext
      ensures Valid() && (old(Within()) ==> Within()) && Step(old(Abs()), Action.Schedule(cb), Abs())
    {
      hide And, IsPow2, Window.Cut, Window.Valid, Total, Window.Add;
      cbQ.Insert(cb, globalClock + delta);
    }

    // Any future cycle; the queue stays valid if and only if the event does not seem to be near.
    method ScheduleAbs(cb: Callback, tim: nat)
      requires Valid() && globalClock < tim < MAX_TIME && cb !in cbQ.Pending() && cb.time == tim
      modifies cbQ, cbQ.access, cbQ.access.access, cbQ.access.accessTail, cbQ.access.nodes`tqNext, cb`tqNext
      ensures Step(old(Abs()), Action.Schedule(cb), Abs()) && cbQ.minTime == old(cbQ.minTime)
      ensures Valid() <==> tim - cbQ.minTime < 256 || 256 <= U32(tim - cbQ.minTime)
      ensures Within() <==> old(Within()) && tim < cbQ.minTime + TWO32
      ensures tim < cbQ.minTime + TWO32 ==> Valid()
    {
      hide And, IsPow2, Window.Cut, Window.Valid, Total, Window.Add;
      cbQ.Insert(cb, tim);
    }

    // A job is delivered rightly, and the queue left right, if and only if the heap, when it is
    // looked at, does not give up an event too early; that holds while all events are within 2^32.
    method Poll() returns (cb: Callback?)
      requires Valid()
      modifies this`idle, cbQ, cbQ.access, cbQ.access.access, cbQ.access.accessTail, cbQ.Pending()`tqNext
      ensures Valid() && Step(old(Abs()), if cb == null then Idle else Deliver(cb), Abs()) <==>
              (old(cbQ.LooksFar(globalClock)) ==> old(cbQ.Clear(cbQ.tooFar)))
      ensures old(Within()) ==> old(cbQ.Clear(cbQ.tooFar)) && Within()
    {
      ClearWithin();
      cb := cbQ.NextJob(globalClock);
      if cb == null {
        idle := true;
      }
    }

    lemma ClearWithin()
      requires Valid()
      ensures Within() ==> cbQ.Clear(cbQ.tooFar)
    {
    }

    method NextCycle()
      requires Valid() && idle && globalClock + 0x1_0001 < MAX_TIME
      modifies this
      ensures Valid() && (old(Within()) ==> Within()) && Step(old(Abs()), Tick, Abs())
    {
      globalClock := globalClock + 1;
      idle := false;
    }

    method Book(cb: Callback)
      requires Valid() && Within() && globalClock < cb.time < globalClock + TWO32 - 1 && cb.time < MAX_TIME
      requires cb !in cbQ.Pending()
      modifies cbQ, cbQ.access, cbQ.access.access, cbQ.access.accessTail, cbQ.access.nodes`tqNext, cb`tqNext
      ensures Valid() && Within() && Step(old(Abs()), Action.Schedule(cb), Abs())
      ensures cbQ.Pending() == old(cbQ.Pending()) + {cb}
    {
      ScheduleAbs(cb, cb.time);
    }

    method AskOne() returns (cb: Callback?)
      requires Valid() && Within()
      modifies this`idle, cbQ, cbQ.access, cbQ.access.access, cbQ.access.accessTail, cbQ.Pending()`tqNext
      ensures Valid() && Within() && Step(old(Abs()), if cb == null then Idle else Deliver(cb), Abs())
      ensures cbQ.Pending() <= old(cbQ.Pending()) && (idle <==> old(idle) || cb == null)
    {
      cb := Poll();
    }

    // One call; quiet tells whether the current cycle is known to be over.
    method ServeOne(c: Call, quiet: bool) returns (fired: seq<Callback>, done: bool, ghost action: Action)
      requires Valid() && Within() && quiet == idle && (c.At? ==> c.cb !in cbQ.Pending())
      modifies this, cbQ, cbQ.access, cbQ.access.access, cbQ.access.accessTail, cbQ.Pending()`tqNext, Booked([c])`tqNext
      ensures Valid() && Within() && done == idle && cbQ.Pending() <= old(cbQ.Pending()) + Booked([c])
      ensures Step(old(Abs()), action, Abs()) && fired == Fired(action) && Answers(old(Abs()), c, action)
    {
      hide Step, And, IsPow2, Window.Cut, Window.Valid, Total;
      fired, done, action := [], quiet, Skip;
      NothingDone(Abs());
      match c
      case At(cb) =>
        assert cb in Booked([c]) by {
          assert [c][0] == c;
        }
        if globalClock < cb.time < globalClock + TWO32 - 1 && cb.time < MAX_TIME {
          Book(cb);
          action := Action.Schedule(cb);
        }
      case Ask =>
        var cb := AskOne();
        if cb == null {
          done, action := true, Idle;
        } else {
          fired, action := [cb], Deliver(cb);
        }
      case Clock =>
        if quiet && globalClock + 0x1_0001 < MAX_TIME {
          NextCycle();
          done, action := false, Tick;
        }
    }

    // Any sequence of calls, from the start, is a run, and so every event fires once and on time.
    method Serve(calls: seq<Call>) returns (fired: seq<Callback>, ghost states: seq<State>, ghost actions: seq<Action>)
      requires Valid() && Within() && Abs() == INITIAL
      requires forall i, j | 0 <= i < j < |calls| && calls[i].At? && calls[j].At? :: calls[i].cb != calls[j].cb
      modifies this, cbQ, cbQ.access, cbQ.access.access, cbQ.access.accessTail, Booked(calls)`tqNext
      ensures Valid() && Run(states, actions) && states[|actions|] == Abs() && fired == AllFired(actions)
      ensures |actions| == |calls| && forall n | 0 <= n < |calls| :: Answers(states[n], calls[n], actions[n])
      ensures forall i: nat | i < |actions| && actions[i].Schedule? :: OnTime(states, actions, i)
    {
      hide Step, OnTime, Served;
      fired, states, actions := [], [Abs()], [];
      NothingServed(calls, Abs());
      var quiet := true;
      for n := 0 to |calls|
        invariant Valid() && Within() && quiet == idle && cbQ.Pending() <= Booked(calls[..n])
        invariant Served(calls, n, fired, states, actions) && |states| == n + 1 && states[n] == Abs()
      {
        NotYetBooked(calls, n);
        var f, q, a := ServeOne(calls[n], quiet);
        ServedMore(calls, n, fired, states, actions, f, a, Abs());
        states, actions := states + [Abs()], actions + [a];
        fired, quiet := fired + f, q;
      }
      AllServed(calls, fired, states, actions);
    }
  }

  lemma NothingDone(s: State)
    ensures Step(s, Skip, s)
  {
  }

  // How the engine answers a call.  Events are taken if they lie in the future and less than
  // 2^32 - 1 cycles ahead, and the clock goes on once the cycle is over.
  ghost predicate Answers(s: State, c: Call, a: Action) {
    match c
    case At(cb) =>
      a == if s.now < cb.time < s.now + TWO32 - 1 && cb.time < MAX_TIME then Action.Schedule(cb) else Skip
    case Ask => a.Deliver? || a.Idle?
    case Clock => a == if s.idle && s.now + 0x1_0001 < MAX_TIME then Tick else Skip
  }

  ghost predicate Served(calls: seq<Call>, n: nat, fired: seq<Callback>, states: seq<State>, actions: seq<Action>)
    requires n <= |calls|
  {
    && Run(states, actions) && |actions| == n && fired == AllFired(actions) && BookedOnce(actions, calls[..n])
    && forall k | 0 <= k < n :: Answers(states[k], calls[k], actions[k])
  }

  lemma NothingServed(calls: seq<Call>, s: State)
    requires s == INITIAL
    ensures Served(calls, 0, [], [s], [])
  {
  }

  lemma ServedMore(calls: seq<Call>, n: nat, fired: seq<Callback>, states: seq<State>, actions: seq<Action>,
      f: seq<Callback>, a: Action, t: State)
    requires n < |calls| && Served(calls, n, fired, states, actions)
    requires Step(states[n], a, t) && f == Fired(a) && Answers(states[n], calls[n], a)
    requires calls[n].At? ==> calls[n].cb !in Booked(calls[..n])
    requires Booked(calls[..n + 1]) == Booked(calls[..n]) + Booked([calls[n]])
    ensures Served(calls, n + 1, fired + f, states + [t], actions + [a])
  {
    hide Step;
    BookedMore(actions, a, calls, n);
    RunOn(states, actions, a, t);
  }

  lemma AllServed(calls: seq<Call>, fired: seq<Callback>, states: seq<State>, actions: seq<Action>)
    requires Served(calls, |calls|, fired, states, actions)
    ensures Run(states, actions) && fired == AllFired(actions) && |actions| == |calls|
    ensures forall n | 0 <= n < |calls| :: Answers(states[n], calls[n], actions[n])
    ensures forall i: nat | i < |actions| && actions[i].Schedule? :: OnTime(states, actions, i)
  {
    hide Step, OnTime;
    forall i: nat | i < |actions| && actions[i].Schedule?
      ensures OnTime(states, actions, i)
    {
      EachOnTime(states, actions, calls[..|calls|], i);
    }
  }

  // The same from power-on.
  method Simulate(calls: seq<Call>)
      returns (engine: Engine, fired: seq<Callback>, ghost states: seq<State>, ghost actions: seq<Action>)
    requires forall i, j | 0 <= i < j < |calls| && calls[i].At? && calls[j].At? :: calls[i].cb != calls[j].cb
    modifies Booked(calls)`tqNext
    ensures engine.Valid() && Run(states, actions) && states[|actions|] == engine.Abs() && fired == AllFired(actions)
    ensures |actions| == |calls| && forall n | 0 <= n < |calls| :: Answers(states[n], calls[n], actions[n])
    ensures forall i: nat | i < |actions| && actions[i].Schedule? :: OnTime(states, actions, i)
  {
    engine := new Engine();
    fired, states, actions := engine.Serve(calls);
  }

  // What a client asks of the engine; Clock counts once nothing is due any more.
  datatype Call = At(cb: Callback) | Ask | Clock

  ghost function Booked(calls: seq<Call>): set<Callback> {
    set i | 0 <= i < |calls| && calls[i].At? :: calls[i].cb
  }

  ghost function Fired(a: Action): seq<Callback> {
    if a.Deliver? then [a.e] else []
  }

  ghost function AllFired(actions: seq<Action>): seq<Callback> {
    if actions == [] then [] else AllFired(actions[..|actions| - 1]) + Fired(actions[|actions| - 1])
  }

  lemma RunOn(states: seq<State>, actions: seq<Action>, a: Action, t: State)
    requires Run(states, actions) && Step(states[|actions|], a, t)
    ensures Run(states + [t], actions + [a])
    ensures AllFired(actions + [a]) == AllFired(actions) + Fired(a)
  {
    hide Step;
    var ss, aa := states + [t], actions + [a];
    forall k: nat | k < |aa|
      ensures Step(ss[k], aa[k], ss[k + 1])
    {
      assert k < |actions| ==> Step(states[k], actions[k], states[k + 1]);
    }
    assert aa[..|actions|] == actions;
  }

  // The event scheduled at step i fires in its cycle only, once, and before the clock leaves it.
  ghost predicate OnTime(states: seq<State>, actions: seq<Action>, i: nat)
    requires |states| == |actions| + 1 && i < |actions| && actions[i].Schedule?
  {
    var e := actions[i].e;
    && (forall k: nat | k < |actions| && actions[k] == Deliver(e) :: i < k && states[k].now == e.time)
    && (forall k: nat, l: nat | k < l < |actions| && actions[k] == Deliver(e) :: actions[l] != Deliver(e))
    && (e.time < states[|actions|].now ==> exists k: nat :: k < |actions| && actions[k] == Deliver(e))
  }

  // Each event of the run was asked for, and scheduled once.
  ghost predicate BookedOnce(actions: seq<Action>, calls: seq<Call>) {
    && (forall i, j | 0 <= i < j < |actions| && actions[i].Schedule? :: actions[j] != actions[i])
    && (forall i | 0 <= i < |actions| && actions[i].Schedule? :: actions[i].e in Booked(calls))
  }

  lemma NotYetBooked(calls: seq<Call>, n: nat)
    requires n < |calls|
    requires forall i, j | 0 <= i < j < |calls| && calls[i].At? && calls[j].At? :: calls[i].cb != calls[j].cb
    ensures calls[n].At? ==> calls[n].cb !in Booked(calls[..n])
    ensures Booked(calls[..n + 1]) == Booked(calls[..n]) + Booked([calls[n]])
    ensures Booked(calls[..n + 1]) <= Booked(calls)
  {
    assert calls[..n + 1] == calls[..n] + [calls[n]];
    BookedPush(calls[..n], calls[n]);
    forall cb | cb in Booked(calls[..n + 1])
      ensures cb in Booked(calls)
    {
      var i :| 0 <= i < n + 1 && calls[..n + 1][i].At? && calls[..n + 1][i].cb == cb;
      assert calls[i] == calls[..n + 1][i];
    }
  }

  lemma BookedPush(calls: seq<Call>, c: Call)
    ensures Booked(calls + [c]) == Booked(calls) + Booked([c])
  {
    var all := calls + [c];
    forall cb | cb in Booked(calls)
      ensures cb in Booked(all)
    {
      var i :| 0 <= i < |calls| && calls[i].At? && calls[i].cb == cb;
      assert all[i] == calls[i];
    }
    forall cb | cb in Booked([c])
      ensures cb in Booked(all)
    {
      assert all[|calls|] == c;
    }
    forall cb | cb in Booked(all)
      ensures cb in Booked(calls) || cb in Booked([c])
    {
      var i :| 0 <= i < |all| && all[i].At? && all[i].cb == cb;
      assert i < |calls| ==> calls[i] == all[i];
      assert [c][0] == c;
    }
  }

  lemma BookedMore(actions: seq<Action>, a: Action, calls: seq<Call>, n: nat)
    requires n < |calls| && BookedOnce(actions, calls[..n]) && (a.Schedule? ==> calls[n] == At(a.e))
    requires calls[n].At? ==> calls[n].cb !in Booked(calls[..n])
    requires Booked(calls[..n + 1]) == Booked(calls[..n]) + Booked([calls[n]])
    ensures BookedOnce(actions + [a], calls[..n + 1])
  {
    if a.Schedule? {
      assert [calls[n]][0] == At(a.e);
      assert a.e in Booked([calls[n]]);
    }
  }

  lemma EachOnTime(states: seq<State>, actions: seq<Action>, calls: seq<Call>, i: nat)
    requires Run(states, actions) && i < |actions| && actions[i].Schedule? && BookedOnce(actions, calls)
    ensures OnTime(states, actions, i)
  {
    hide Step;
    FiresExactlyOnceOnTime(states, actions, actions[i].e, i);
  }
}
