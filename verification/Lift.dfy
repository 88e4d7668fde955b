/** The elevator car as a timed state machine: what each callback and each pass of
    the main loop does to it. `LiftController` runs the same steps in place. */
module Lift {
  import opened Octets

  const LOWEST_FLOOR: byte := 1
  const HIGHEST_FLOOR: byte := 10
  const START_FLOOR: byte := 3
  const MILLISECONDS_PER_FLOOR := 2000
  const DOOR_DWELL_MILLISECONDS := 3000
  const MAX_LANDING_CALLS := 8

  // BACnetLiftCarDirection
  const NONE := 1
  const STOPPED := 2
  const UP := 3
  const DOWN := 4

  // BACnetDoorStatus
  const CLOSED := 0
  const OPENED := 1

  // The command choice of a BACnetLandingCallStatus
  const COMMAND_DIRECTION: byte := 1
  const COMMAND_DESTINATION: byte := 2

  datatype Phase = Idle | Moving | DoorOpen

  datatype Call = Call(floor: byte, direction: nat)

  /** The car; `calls` is the oldest call first. */
  datatype Car = Car(
    position: byte,
    movingDirection: nat,
    doorStatus: nat,
    phase: Phase,
    deadline: int,
    calls: seq<Call>)

  function PowerOn(): Car {
    Car(START_FLOOR, STOPPED, CLOSED, Idle, 0, [])
  }

  /** The calls that are not for `floor`, in order. */
  function Waiting(calls: seq<Call>, floor: byte): (r: seq<Call>)
    ensures |r| <= |calls|
  {
    if calls == [] then []
    else
      var last := calls[|calls| - 1];
      Waiting(calls[..|calls| - 1], floor) + (if last.floor != floor then [last] else [])
  }

  lemma {:induction false} WaitingMembers(calls: seq<Call>, floor: byte)
    ensures forall c :: c in Waiting(calls, floor) <==> c in calls && c.floor != floor
    decreases |calls|
  {
    if calls != [] {
      WaitingMembers(calls[..|calls| - 1], floor);
      assert calls == calls[..|calls| - 1] + [calls[|calls| - 1]];
    }
  }

  lemma WaitingSplit(front: seq<Call>, last: Call, floor: byte)
    ensures Waiting(front + [last], floor) == Waiting(front, floor) + (if last.floor != floor then [last] else [])
  {
    assert (front + [last])[..|front|] == front;
  }

  predicate HasCallAt(calls: seq<Call>, floor: byte) {
    exists i :: 0 <= i < |calls| && calls[i].floor == floor
  }

  function OpenDoor(c: Car, now: int): Car {
    c.(calls := Waiting(c.calls, c.position),
       movingDirection := STOPPED,
       doorStatus := OPENED,
       phase := DoorOpen,
       deadline := now + DOOR_DWELL_MILLISECONDS)
  }

  /** The next floor; the source's cast to an 8-bit position wraps. */
  function NextFloor(position: byte, direction: nat): byte {
    if direction == UP then (position + 1) % 256 else (position + 255) % 256
  }

  function Tick(c: Car, now: int): Car {
    match c.phase
    case Idle =>
      if c.calls == [] then c
      else if HasCallAt(c.calls, c.position) then OpenDoor(c, now)
      else c.(movingDirection := if c.calls[0].floor > c.position then UP else DOWN,
              phase := Moving,
              deadline := now + MILLISECONDS_PER_FLOOR)
    case Moving =>
      if now < c.deadline then c
      else
        var moved := c.(position := NextFloor(c.position, c.movingDirection));
        if HasCallAt(moved.calls, moved.position) then OpenDoor(moved, now)
        else moved.(deadline := c.deadline + MILLISECONDS_PER_FLOOR)
    case DoorOpen =>
      if now < c.deadline then c
      else c.(doorStatus := CLOSED, phase := Idle)
  }

  /** One write of Landing_Call_Control. */
  datatype Control = Control(floor: byte, choice: byte, direction: nat, destination: byte)

  predicate Served(floor: byte) {
    LOWEST_FLOOR <= floor <= HIGHEST_FLOOR
  }

  /** The write names a button of this building: a landing it serves and, for a destination
      call, another landing it serves, or else the up or the down button. */
  predicate NamesButton(w: Control) {
    && Served(w.floor)
    && (w.choice == COMMAND_DESTINATION ==> Served(w.destination) && w.destination != w.floor)
    && (w.choice != COMMAND_DESTINATION ==> w.direction in {UP, DOWN})
  }

  /** The call a write asks for: at the landing, and in the direction of the button or towards
      the destination; None exactly when the write names no button. */
  function RequestedCall(w: Control): (r: Option<Call>)
    ensures r.Some? <==> NamesButton(w)
    ensures r.Some? ==> Served(r.value.floor) && r.value.floor == w.floor && r.value.direction in {UP, DOWN}
    ensures r.Some? && w.choice == COMMAND_DESTINATION ==> (r.value.direction == UP <==> w.floor < w.destination)
    ensures r.Some? && w.choice != COMMAND_DESTINATION ==> r.value.direction == w.direction
  {
    if !Served(w.floor) then None
    else if w.choice == COMMAND_DESTINATION then
      if !Served(w.destination) || w.destination == w.floor then None
      else Some(Call(w.floor, if w.destination > w.floor then UP else DOWN))
    else if w.direction != UP && w.direction != DOWN then None
    else Some(Call(w.floor, w.direction))
  }

  predicate Accepts(c: Car, w: Control) {
    RequestedCall(w).Some? &&
    (RequestedCall(w).value in c.calls || |c.calls| < MAX_LANDING_CALLS)
  }

  function Press(c: Car, w: Control): Car {
    if Accepts(c, w) && RequestedCall(w).value !in c.calls
    then c.(calls := c.calls + [RequestedCall(w).value])
    else c
  }

  datatype Event = Ticked(now: int) | Pressed(control: Control) | ColdStart

  function Step(c: Car, e: Event): Car {
    match e
    case Ticked(now) => Tick(c, now)
    case Pressed(w) => Press(c, w)
    case ColdStart => PowerOn()
  }

  function Run(c: Car, events: seq<Event>): Car
    decreases |events|
  {
    if events == [] then c else Run(Step(c, events[0]), events[1..])
  }

  /** The call that an event adds to those the device has taken on: a write it accepts for a
      button that is not lit yet. */
  function QueuedBy(c: Car, e: Event): seq<Call> {
    if e.Pressed? && Accepts(c, e.control) && RequestedCall(e.control).value !in c.calls
    then [RequestedCall(e.control).value]
    else []
  }

  /** The calls taken on by a run, read off the writes, in order. */
  function Queued(c: Car, events: seq<Event>): seq<Call>
    decreases |events|
  {
    if events == [] then [] else QueuedBy(c, events[0]) + Queued(Step(c, events[0]), events[1..])
  }

  lemma {:induction false} RunConcat(c: Car, a: seq<Event>, b: seq<Event>)
    ensures Run(c, a + b) == Run(Run(c, a), b)
    decreases |a|
  {
    if a == [] {
      assert a + b == b;
    } else {
      assert (a + b)[1..] == a[1..] + b;
      RunConcat(Step(c, a[0]), a[1..], b);
    }
  }
}
