/** What every reachable state of the car satisfies, and how far it is from rest. */
module LiftSafety {
  import opened Octets
  import opened Lift

  predicate Distinct(calls: seq<Call>) {
    forall i, j :: 0 <= i < j < |calls| ==> calls[i] != calls[j]
  }

  /** The oldest call lies strictly ahead of the car in its direction. */
  predicate OldestAhead(c: Car) {
    c.calls != [] &&
    ((c.movingDirection == UP && c.position < c.calls[0].floor) ||
     (c.movingDirection == DOWN && c.calls[0].floor < c.position))
  }

  predicate Safe(c: Car) {
    && Served(c.position)
    && |c.calls| <= MAX_LANDING_CALLS
    && Distinct(c.calls)
    && (forall i :: 0 <= i < |c.calls| ==> Served(c.calls[i].floor) && c.calls[i].direction in {UP, DOWN})
    && match c.phase
       case Idle => c.movingDirection == STOPPED && c.doorStatus == CLOSED
       case Moving => c.doorStatus == CLOSED && OldestAhead(c)
       case DoorOpen => c.movingDirection == STOPPED && c.doorStatus == OPENED
  }

  lemma CallInFront(calls: seq<Call>, floor: byte)
    requires HasCallAt(calls, floor) && calls[|calls| - 1].floor != floor
    ensures HasCallAt(calls[..|calls| - 1], floor)
  {
    var i :| 0 <= i < |calls| && calls[i].floor == floor;
    assert calls[..|calls| - 1][i].floor == floor;
  }

  lemma {:induction false} WaitingShrinks(calls: seq<Call>, floor: byte)
    requires HasCallAt(calls, floor)
    ensures |Waiting(calls, floor)| < |calls|
    decreases |calls|
  {
    if calls[|calls| - 1].floor != floor {
      CallInFront(calls, floor);
      WaitingShrinks(calls[..|calls| - 1], floor);
    }
  }

  /** What is kept keeps its order, and the oldest call stays first unless it is answered. */
  lemma {:induction false} WaitingKeepsOrder(calls: seq<Call>, floor: byte)
    requires Distinct(calls)
    ensures Distinct(Waiting(calls, floor))
    ensures calls != [] && calls[0].floor != floor ==>
              Waiting(calls, floor) != [] && Waiting(calls, floor)[0] == calls[0]
    ensures HasCallAt(calls, floor) ==> |Waiting(calls, floor)| < |calls|
    decreases |calls|
  {
    hide HasCallAt;
    if calls != [] {
      WaitingKeepsOrder(calls[..|calls| - 1], floor);
      WaitingMembers(calls[..|calls| - 1], floor);
    }
    if HasCallAt(calls, floor) {
      WaitingShrinks(calls, floor);
    }
  }

  lemma OpenDoorSafe(c: Car, now: int)
    requires Served(c.position) && |c.calls| <= MAX_LANDING_CALLS && Distinct(c.calls)
    requires forall i :: 0 <= i < |c.calls| ==> Served(c.calls[i].floor) && c.calls[i].direction in {UP, DOWN}
    ensures Safe(OpenDoor(c, now))
  {
    WaitingKeepsOrder(c.calls, c.position);
    WaitingMembers(c.calls, c.position);
    var left := Waiting(c.calls, c.position);
    forall i | 0 <= i < |left|
      ensures Served(left[i].floor) && left[i].direction in {UP, DOWN}
    {
      assert left[i] in c.calls;
    }
  }

  lemma StepSafe(c: Car, e: Event)
    requires Safe(c)
    ensures Safe(Step(c, e))
  {
    match e
    case Pressed(w) =>
    case ColdStart =>
    case Ticked(now) =>
      match c.phase
      case DoorOpen =>
      case Idle =>
        if c.calls != [] && HasCallAt(c.calls, c.position) {
          OpenDoorSafe(c, now);
        }
      case Moving =>
        if c.deadline <= now {
          var moved := c.(position := NextFloor(c.position, c.movingDirection));
          if HasCallAt(moved.calls, moved.position) {
            OpenDoorSafe(moved, now);
          }
        }
  }

  /** Every state of every run of ticks, landing calls and cold starts is safe. */
  lemma {:induction false} RunSafe(c: Car, events: seq<Event>)
    requires Safe(c)
    ensures Safe(Run(c, events))
    decreases |events|
  {
    if events != [] {
      StepSafe(c, events[0]);
      RunSafe(Step(c, events[0]), events[1..]);
    }
  }

  lemma ReachableSafe(events: seq<Event>)
    ensures Safe(Run(PowerOn(), events))
    ensures 1 <= Run(PowerOn(), events).position <= 10 && |Run(PowerOn(), events).calls| <= 8
  {
    RunSafe(PowerOn(), events);
  }

  // ---- Where the car stops ----

  /** A call waits at `floor`. */
  predicate CallWaits(c: Car, floor: byte) {
    exists k :: 0 <= k < |c.calls| && c.calls[k].floor == floor
  }

  /** A car that moves stops at the floor it comes to exactly when a call, the oldest or another,
      waits there; a car at rest opens its door exactly when one waits where it stands. A stop
      answers every call for the floor and no other, and nothing else opens the door. */
  lemma {:induction false} StopsExactly(c: Car, now: int)
    requires Safe(c)
    ensures var c' := Tick(c, now);
            && (c'.position != c.position ==>
                  c.phase == Moving && (c'.phase == DoorOpen <==> CallWaits(c, c'.position)))
            && (c'.position == c.position && c.phase != DoorOpen ==>
                  (c'.phase == DoorOpen <==> c.phase == Idle && CallWaits(c, c.position)))
            && (c.phase == Moving && c.deadline <= now <==> c'.position != c.position)
            && (c'.phase == DoorOpen && c.phase != DoorOpen ==>
                  forall call :: call in c'.calls <==> call in c.calls && call.floor != c'.position)
            && (c'.phase != DoorOpen || c.phase == DoorOpen ==> c'.calls == c.calls)
  {
    WaitingMembers(c.calls, c.position);
    WaitingMembers(c.calls, NextFloor(c.position, c.movingDirection));
  }

  /** Over every run: a waiting call, the oldest or not, is answered on the first step that brings
      the car to its floor. */
  lemma {:induction false} AnsweredOnArrival(c: Car, events: seq<Event>, k: nat, call: Call)
    requires Safe(c) && ColdStart !in events && k < |events|
    requires call in After(c, events, k).calls
    requires After(c, events, k).position != After(c, events, k + 1).position == call.floor
    ensures After(c, events, k + 1).phase == DoorOpen && call !in After(c, events, k + 1).calls
  {
    hide Safe, Tick, Press;
    var before := After(c, events, k);
    assert events[..k + 1] == events[..k] + [events[k]];
    RunConcat(c, events[..k], [events[k]]);
    RunOne(before, events[k]);
    RunSafe(c, events[..k]);
    PressStaysPut(before, events[k]);
    StopsExactly(before, events[k].now);
    var i :| 0 <= i < |before.calls| && before.calls[i] == call;
    assert before.calls[i].floor == call.floor;
  }

  lemma PressStaysPut(c: Car, e: Event)
    ensures e.Pressed? ==> Step(c, e).position == c.position
  {
  }

  lemma RunOne(c: Car, e: Event)
    ensures Run(c, [e]) == Step(c, e)
  {
    assert [e][1..] == [];
  }

  // ---- Buttons ----

  /** The building has floors 1 to 10, each with an up and a down button, and a call to another
      floor from each. */
  lemma ButtonsExactly(w: Control)
    ensures NamesButton(w) <==>
            && 1 <= w.floor <= 10
            && (w.choice == 2 ==> 1 <= w.destination <= 10 && w.destination != w.floor)
            && (w.choice != 2 ==> w.direction == 3 || w.direction == 4)
  {
  }

  /** A write is accepted exactly when it names a button that is lit or there are fewer than eight
      calls; pressing it lights it, last in the queue; and pressing a lit button again is accepted
      and changes nothing, however many calls wait. */
  lemma PressOutcome(c: Car, w: Control)
    ensures !NamesButton(w) ==> !Accepts(c, w)
    ensures NamesButton(w) && |c.calls| < 8 ==> Accepts(c, w)
    ensures NamesButton(w) && |c.calls| >= 8 ==> (Accepts(c, w) <==> RequestedCall(w).value in c.calls)
    ensures Accepts(c, w) ==>
              var lit := Press(c, w);
              && RequestedCall(w).value in lit.calls && Accepts(lit, w) && Press(lit, w) == lit
              && (lit == c || lit == c.(calls := c.calls + [RequestedCall(w).value]))
    ensures !Accepts(c, w) ==> Press(c, w) == c
  {
  }

  function Distance(a: byte, b: byte): nat {
    if a < b then b - a else a - b
  }

  /** Ticks that still change the car while no call arrives. */
  function Work(c: Car): nat
    requires Safe(c)
  {
    match c.phase
    case Idle => 11 * |c.calls|
    case Moving => 11 * (|c.calls| - 1) + Distance(c.position, c.calls[0].floor) + 1
    case DoorOpen => 11 * |c.calls| + 1
  }

  predicate AtRest(c: Car) {
    c.phase == Idle && c.calls == []
  }

  lemma TickMakesProgress(c: Car, now: int)
    requires Safe(c)
    ensures Safe(Tick(c, now))
    ensures Tick(c, now) != c ==> Work(Tick(c, now)) < Work(c)
    ensures c.deadline <= now && !AtRest(c) ==> Tick(c, now) != c
    ensures Tick(c, now) == c ==> AtRest(c) || now < c.deadline
    ensures Work(c) == 0 <==> AtRest(c)
  {
    StepSafe(c, Ticked(now));
    WaitingKeepsOrder(c.calls, c.position);
    WaitingKeepsOrder(c.calls, NextFloor(c.position, c.movingDirection));
  }

  /** How many ticks of a run change the car. */
  function EffectiveTicks(c: Car, events: seq<Event>): nat
    decreases |events|
  {
    if events == [] then 0
    else
      (if events[0].Ticked? && Step(c, events[0]) != c then 1 else 0)
      + EffectiveTicks(Step(c, events[0]), events[1..])
  }

  function TickCount(events: seq<Event>): nat {
    if events == [] then 0 else (if events[0].Ticked? then 1 else 0) + TickCount(events[1..])
  }

  /** No tick of the run comes before the deadline of a moving car or an open door. */
  predicate InTime(c: Car, events: seq<Event>)
    decreases |events|
  {
    events == [] ||
    (&& (events[0].Ticked? ==> c.phase == Idle || c.deadline <= events[0].now)
     && InTime(Step(c, events[0]), events[1..]))
  }

  lemma PressIsCharged(c: Car, e: Event)
    requires Safe(c) && e.Pressed?
    ensures Safe(Step(c, e))
    ensures Work(Step(c, e)) == Work(c) + 11 * |QueuedBy(c, e)|
  {
    StepSafe(c, e);
  }

  /** Whatever calls arrive: the ticks that change the car, and the work left, are paid for by
      the work at the start and eleven for each call taken on. */
  lemma {:induction false} WorkIsSpent(c: Car, events: seq<Event>)
    requires Safe(c) && ColdStart !in events
    ensures Safe(Run(c, events))
    ensures EffectiveTicks(c, events) + Work(Run(c, events)) <= Work(c) + 11 * |Queued(c, events)|
    decreases |events|
  {
    hide Tick, Press, Work, QueuedBy;
    if events != [] {
      var e := events[0];
      if e.Pressed? {
        PressIsCharged(c, e);
      } else {
        TickMakesProgress(c, e.now);
        NothingQueued(c, e);
      }
      WorkIsSpent(Step(c, e), events[1..]);
    }
  }

  lemma NothingQueued(c: Car, e: Event)
    requires !e.Pressed?
    ensures QueuedBy(c, e) == []
  {
  }

  lemma WorkBound(c: Car)
    requires Safe(c)
    ensures Work(c) <= 11 * |c.calls| + 1
    ensures Work(c) == 0 <==> AtRest(c)
  {
  }

  lemma {:induction false} NeverAtRest(c: Car, events: seq<Event>)
    requires Safe(c) && InTime(c, events) && ColdStart !in events
    requires forall k :: 0 <= k <= |events| ==> !AtRest(After(c, events, k))
    ensures EffectiveTicks(c, events) == TickCount(events)
    decreases |events|
  {
    hide Tick, Press;
    if events != [] {
      var c' := Step(c, events[0]);
      assert After(c, events, 0) == c;
      if events[0].Ticked? {
        TickMakesProgress(c, events[0].now);
        DueTickChanges(c, events[0].now);
      }
      StepSafe(c, events[0]);
      forall k | 0 <= k <= |events[1..]|
        ensures !AtRest(After(c', events[1..], k))
      {
        AfterTail(c, events, k + 1);
      }
      NeverAtRest(c', events[1..]);
    }
  }

  lemma DueTickChanges(c: Car, now: int)
    requires Safe(c) && !AtRest(c) && (c.phase == Idle || c.deadline <= now)
    ensures Tick(c, now) != c
  {
  }

  /** Whatever calls arrive: a run with eleven ticks in time for each call that waited at its
      start or was taken on in it, and one more, has passed through a moment at which no call
      was waiting. */
  lemma {:induction false} RestIsReached(c: Car, events: seq<Event>) returns (k: nat)
    requires Safe(c) && InTime(c, events) && ColdStart !in events
    requires TickCount(events) >= 11 * (|c.calls| + |Queued(c, events)|) + 1
    ensures k <= |events| && AtRest(After(c, events, k))
  {
    hide AtRest, Work, EffectiveTicks, TickCount, Queued, InTime;
    assert events[..|events|] == events;
    assert After(c, events, |events|) == Run(c, events);
    if m :| 0 <= m <= |events| && AtRest(After(c, events, m)) {
      k := m;
    } else {
      NeverAtRest(c, events);
      WorkIsSpent(c, events);
      WorkBound(c);
      WorkBound(Run(c, events));
      assert false;
    }
  }

  function Ticks(times: seq<int>): seq<Event> {
    seq(|times|, i requires 0 <= i < |times| => Ticked(times[i]))
  }

  lemma {:induction false} OnlyTicks(c: Car, times: seq<int>)
    ensures Queued(c, Ticks(times)) == [] && TickCount(Ticks(times)) == |times|
    ensures AtRest(c) ==> Run(c, Ticks(times)) == c
    decreases |times|
  {
    if times != [] {
      assert Ticks(times)[1..] == Ticks(times[1..]);
      OnlyTicks(Tick(c, times[0]), times[1..]);
    }
  }

  /** With no new calls, from any reachable state: at most 11 ticks change the car for each
      waiting call and one more, and after that many ticks in time, whenever they come, the car
      is at rest with every call answered. */
  lemma {:induction false} EveryCallIsAnswered(events: seq<Event>, times: seq<int>)
    ensures var c := Run(PowerOn(), events);
            && EffectiveTicks(c, Ticks(times)) <= 11 * |c.calls| + 1
            && (InTime(c, Ticks(times)) && |times| >= 11 * |c.calls| + 1 ==> AtRest(Run(c, Ticks(times))))
  {
    hide AtRest, Work, EffectiveTicks, TickCount, Queued, InTime, Tick;
    ReachableSafe(events);
    var c := Run(PowerOn(), events);
    OnlyTicks(c, times);
    WorkIsSpent(c, Ticks(times));
    WorkBound(c);
    if InTime(c, Ticks(times)) && |times| >= 11 * |c.calls| + 1 {
      var k := RestIsReached(c, Ticks(times));
      RunConcat(c, Ticks(times)[..k], Ticks(times)[k..]);
      assert Ticks(times)[..k] + Ticks(times)[k..] == Ticks(times);
      assert Ticks(times)[k..] == Ticks(times[k..]);
      OnlyTicks(After(c, Ticks(times), k), times[k..]);
    }
  }

  function Moves(c: Car, events: seq<Event>): nat
    decreases |events|
  {
    if events == [] then 0
    else (if Step(c, events[0]).position != c.position then 1 else 0) + Moves(Step(c, events[0]), events[1..])
  }

  /** Either the oldest call stays oldest and every floor moved is a floor closer to it,
      or the door opens at its floor and answers it. */
  predicate OldestFirst(c: Car, c': Car)
    requires c.calls != []
  {
    var moved := if c'.position != c.position then 1 else 0;
    var floor := c.calls[0].floor;
    if c'.calls != [] && c'.calls[0] == c.calls[0]
    then Distance(c'.position, floor) + moved == Distance(c.position, floor)
    else c'.phase == DoorOpen && c'.position == floor && c.calls[0] !in c'.calls && moved == Distance(c.position, floor)
  }

  lemma OpenDoorOldest(c: Car, moved: Car, now: int)
    requires c.calls != [] && Distinct(c.calls) && moved.calls == c.calls
    requires Distance(moved.position, c.calls[0].floor) + (if moved.position != c.position then 1 else 0)
             == Distance(c.position, c.calls[0].floor)
    ensures OldestFirst(c, OpenDoor(moved, now))
  {
    WaitingKeepsOrder(c.calls, moved.position);
    WaitingMembers(c.calls, moved.position);
  }

  lemma MovingOldest(c: Car, now: int)
    requires Safe(c) && c.phase == Moving && c.deadline <= now
    ensures OldestFirst(c, Tick(c, now))
  {
    var moved := c.(position := NextFloor(c.position, c.movingDirection));
    if HasCallAt(moved.calls, moved.position) {
      OpenDoorOldest(c, moved, now);
    }
  }

  lemma OldestStep(c: Car, e: Event)
    requires Safe(c) && c.calls != [] && e != ColdStart
    ensures OldestFirst(c, Step(c, e))
  {
    if e.Ticked? {
      if c.phase == Moving && c.deadline <= e.now {
        MovingOldest(c, e.now);
      } else if c.phase == Idle && HasCallAt(c.calls, c.position) {
        OpenDoorOldest(c, c, e.now);
      }
    }
  }

  /** The state after the first `k` events. */
  function After(c: Car, events: seq<Event>, k: nat): Car
    requires k <= |events|
  {
    Run(c, events[..k])
  }

  /** `call` is the oldest call in the first `k + 1` states of the run. */
  predicate OldestThrough(c: Car, events: seq<Event>, k: nat, call: Call)
    requires k <= |events|
  {
    forall i :: 0 <= i <= k ==> After(c, events, i).calls != [] && After(c, events, i).calls[0] == call
  }

  /** The oldest call is answered at step `k`, by the door opening at its floor, after
      exactly as many moves as the car was floors away. */
  predicate AnsweredAt(c: Car, events: seq<Event>, k: nat, call: Call)
    requires k < |events|
  {
    && OldestThrough(c, events, k, call)
    && After(c, events, k + 1).phase == DoorOpen
    && After(c, events, k + 1).position == call.floor
    && call !in After(c, events, k + 1).calls
    && Moves(c, events[..k + 1]) == Distance(c.position, call.floor)
  }

  lemma AfterTail(c: Car, events: seq<Event>, k: nat)
    requires 0 < k <= |events|
    ensures After(c, events, k) == After(Step(c, events[0]), events[1..], k - 1)
    ensures Moves(c, events[..k]) ==
            (if Step(c, events[0]).position != c.position then 1 else 0) +
            Moves(Step(c, events[0]), events[1..][..k - 1])
  {
    assert events[..k][1..] == events[1..][..k - 1];
  }

  lemma OldestThroughTail(c: Car, events: seq<Event>, k: nat, call: Call)
    requires 0 < k <= |events| && c.calls != [] && c.calls[0] == call
    requires OldestThrough(Step(c, events[0]), events[1..], k - 1, call)
    ensures OldestThrough(c, events, k, call)
  {
    forall i | 0 <= i <= k
      ensures After(c, events, i).calls != [] && After(c, events, i).calls[0] == call
    {
      if i > 0 {
        AfterTail(c, events, i);
        assert After(Step(c, events[0]), events[1..], i - 1).calls[0] == call;
      }
    }
  }

  /** Whatever calls arrive, and for a run of any length: the oldest call stays oldest
      with the floors left plus the floors moved constant, until the door opens at its
      floor and answers it. */
  lemma {:induction false} OldestIsServedFirst(c: Car, events: seq<Event>)
    requires Safe(c) && c.calls != [] && ColdStart !in events
    ensures var call := c.calls[0];
            || (&& OldestThrough(c, events, |events|, call)
                && Distance(Run(c, events).position, call.floor) + Moves(c, events)
                   == Distance(c.position, call.floor))
            || exists k :: 0 <= k < |events| && AnsweredAt(c, events, k, call)
    decreases |events|
  {
    var call := c.calls[0];
    assert events[..|events|] == events;
    if events != [] {
      var c' := Step(c, events[0]);
      OldestStep(c, events[0]);
      StepSafe(c, events[0]);
      AfterTail(c, events, 1);
      if c'.calls != [] && c'.calls[0] == call {
        OldestIsServedFirst(c', events[1..]);
        if k :| 0 <= k < |events| - 1 && AnsweredAt(c', events[1..], k, call) {
          AfterTail(c, events, k + 2);
          OldestThroughTail(c, events, k + 1, call);
          assert AnsweredAt(c, events, k + 1, call);
        } else {
          OldestThroughTail(c, events, |events|, call);
        }
      } else {
        assert AnsweredAt(c, events, 0, call);
      }
    }
  }

  lemma NoneInFront(calls: seq<Call>, floor: byte)
    requires calls != [] && !HasCallAt(calls, floor)
    ensures !HasCallAt(calls[..|calls| - 1], floor) && calls[|calls| - 1].floor != floor
  {
    var front := calls[..|calls| - 1];
    assert forall i :: 0 <= i < |front| ==> front[i] == calls[i];
  }

  lemma {:induction false} NoneHere(calls: seq<Call>, floor: byte)
    requires !HasCallAt(calls, floor)
    ensures Waiting(calls, floor) == calls
    decreases |calls|
  {
    hide HasCallAt;
    if calls != [] {
      var n := |calls| - 1;
      NoneInFront(calls, floor);
      NoneHere(calls[..n], floor);
      assert calls == calls[..n] + [calls[n]];
    }
  }

  /** A button at the landing where the door stands open. */
  predicate HoldsDoor(c: Car, w: Control) {
    c.phase == DoorOpen && Accepts(c, w) && w.floor == c.position
  }

  lemma PressedHere(c: Car, w: Control)
    requires HoldsDoor(c, w)
    ensures var called := Press(c, w);
            && called == c.(calls := called.calls)
            && called.calls != [] && HasCallAt(called.calls, c.position)
            && Waiting(called.calls, c.position) == Waiting(c.calls, c.position)
  {
    var call := RequestedCall(w).value;
    if call in c.calls {
      var i :| 0 <= i < |c.calls| && c.calls[i] == call;
    } else {
      WaitingSplit(c.calls, call, c.position);
      assert (c.calls + [call])[|c.calls|] == call;
    }
  }

  /** For every car with its door open: a press at that landing makes the door close and open
      again, with the car and the calls for other landings as before. */
  lemma {:induction false} HoldOnce(c: Car, w: Control, close: int, open: int)
    requires Safe(c) && HoldsDoor(c, w) && c.deadline <= close
    ensures Run(c, [Pressed(w), Ticked(close), Ticked(open)])
            == c.(calls := Waiting(c.calls, c.position), deadline := open + DOOR_DWELL_MILLISECONDS)
    ensures InTime(c, [Pressed(w), Ticked(close), Ticked(open)])
  {
    hide Accepts, Press, HasCallAt, Waiting;
    var press, shut, reopen := Pressed(w), Ticked(close), Ticked(open);
    PressedHere(c, w);
    var called := Step(c, press);
    var closed := Step(called, shut);
    assert closed == called.(doorStatus := CLOSED, phase := Idle);
    assert [press, shut, reopen][1..] == [shut, reopen] && [shut, reopen][1..] == [reopen];
    assert Run(closed, [reopen]) == Step(closed, reopen);
    assert InTime(closed, [reopen]);
    assert InTime(called, [shut, reopen]);
  }

  lemma {:induction false} InTimeConcat(c: Car, a: seq<Event>, b: seq<Event>)
    ensures InTime(c, a + b) <==> InTime(c, a) && InTime(Run(c, a), b)
    decreases |a|
  {
    hide Step;
    if a == [] {
      assert a + b == b;
    } else {
      assert (a + b)[1..] == a[1..] + b;
      InTimeConcat(Step(c, a[0]), a[1..], b);
    }
  }

  /** `n` times: the button is pressed, the door closes when its dwell is over, and opens again. */
  function HoldDoor(w: Control, n: nat, deadline: int): seq<Event> {
    if n == 0 then []
    else [Pressed(w), Ticked(deadline), Ticked(deadline)] + HoldDoor(w, n - 1, deadline + DOOR_DWELL_MILLISECONDS)
  }

  /** A wait has no bound under arbitrary arrivals: from every car with its door open and room
      for a call at that landing, for every `n` there is a run of `3 * n` events over `n` door
      dwells, every tick in time, after which every other call still waits and the car has not
      moved. */
  lemma {:induction false} NoBoundUnderArrivals(c: Car, w: Control, n: nat)
    requires Safe(c) && HoldsDoor(c, w) && !HasCallAt(c.calls, c.position)
    ensures |HoldDoor(w, n, c.deadline)| == 3 * n && InTime(c, HoldDoor(w, n, c.deadline))
    ensures Run(c, HoldDoor(w, n, c.deadline)) == c.(deadline := c.deadline + n * DOOR_DWELL_MILLISECONDS)
    decreases n
  {
    hide Tick, Press, HasCallAt;
    if n > 0 {
      var next := c.(deadline := c.deadline + DOOR_DWELL_MILLISECONDS);
      var once := [Pressed(w), Ticked(c.deadline), Ticked(c.deadline)];
      NoneHere(c.calls, c.position);
      HoldOnce(c, w, c.deadline, c.deadline);
      NoBoundUnderArrivals(next, w, n - 1);
      RunConcat(c, once, HoldDoor(w, n - 1, next.deadline));
      InTimeConcat(c, once, HoldDoor(w, n - 1, next.deadline));
    }
  }

  /** A car at floor 3 with its door open and one call, up from floor 5. */
  function Held(deadline: int): Car {
    Car(3, STOPPED, OPENED, DoorOpen, deadline, [Call(5, UP)])
  }

  lemma PressQueues(c: Car, w: Control, call: Call)
    requires RequestedCall(w) == Some(call) && call !in c.calls && |c.calls| < MAX_LANDING_CALLS
    ensures Accepts(c, w) && Press(c, w) == c.(calls := c.calls + [call])
  {
  }

  lemma {:induction false} OpensForOnlyCall(c: Car, call: Call, now: int)
    requires c.phase == Idle && c.calls == [call] && call.floor == c.position
    ensures Tick(c, now) == OpenDoor(c, now) && OpenDoor(c, now).calls == []
  {
    assert c.calls[0].floor == c.position;
    WaitingSplit([], call, c.position);
    assert [] + [call] == [call];
  }

  lemma OnlyCallElsewhere(call: Call, floor: byte)
    requires call.floor != floor
    ensures !HasCallAt([call], floor)
  {
  }

  /** Such cars are reached from power-on, and floor 3's button holds them. */
  lemma {:induction false} HeldIsReachable(t: int)
    ensures Run(PowerOn(), [Pressed(Control(3, 1, UP, 0)), Ticked(t), Pressed(Control(5, 1, UP, 0))])
            == Held(t + DOOR_DWELL_MILLISECONDS)
    ensures Safe(Held(t + DOOR_DWELL_MILLISECONDS))
    ensures HoldsDoor(Held(t + DOOR_DWELL_MILLISECONDS), Control(3, 1, UP, 0))
    ensures !HasCallAt(Held(t + DOOR_DWELL_MILLISECONDS).calls, 3)
  {
    hide Press, Accepts, Tick, Waiting, HasCallAt;
    var here, tick, there := Pressed(Control(3, 1, UP, 0)), Ticked(t), Pressed(Control(5, 1, UP, 0));
    var held := Held(t + DOOR_DWELL_MILLISECONDS);
    PressQueues(PowerOn(), here.control, Call(3, UP));
    assert [] + [Call(3, UP)] == [Call(3, UP)] && [] + [Call(5, UP)] == [Call(5, UP)];
    var called := Step(PowerOn(), here);
    OpensForOnlyCall(called, Call(3, UP), t);
    var open := Step(called, tick);
    PressQueues(open, there.control, Call(5, UP));
    assert Step(open, there) == held;
    assert [here, tick, there][1..] == [tick, there] && [tick, there][1..] == [there];
    assert Run(open, [there]) == Step(open, there);
    PressQueues(held, here.control, Call(3, UP));
    OnlyCallElsewhere(Call(5, UP), 3);
  }
}
