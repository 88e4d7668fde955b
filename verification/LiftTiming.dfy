/** How long the car travels and how long its door stays open, by the clock of the ticks. */
module LiftTiming {
  import opened Octets
  import opened Lift
  import opened LiftSafety

  /** The leg under way (when it left, from which floor, floors travelled since), when the
      door last opened, and every finished opening as (opened, closed). */
  datatype Log = Log(
    car: Car,
    clock: int,
    legStart: int,
    legOrigin: byte,
    legFloors: nat,
    openedAt: int,
    openings: seq<(int, int)>)

  function Start(clock: int): Log {
    Log(PowerOn(), clock, clock, START_FLOOR, 0, clock, [])
  }

  /** What a watcher writes down when a tick at `now` leaves the car as `car`. */
  function Watch(l: Log, car: Car, now: int): Log {
    var departs := l.car.phase != Moving && car.phase == Moving;
    var opens := l.car.phase != DoorOpen && car.phase == DoorOpen;
    var closes := l.car.phase == DoorOpen && car.phase != DoorOpen;
    Log(car,
        now,
        if departs then now else l.legStart,
        if departs then l.car.position else l.legOrigin,
        if departs then 0 else if car.position != l.car.position then l.legFloors + 1 else l.legFloors,
        if opens then now else l.openedAt,
        if closes then l.openings + [(l.openedAt, now)] else l.openings)
  }

  function Step(l: Log, e: Event): Log {
    match e
    case Ticked(now) => Watch(l, Tick(l.car, now), now)
    case Pressed(w) => l.(car := Press(l.car, w))
    case ColdStart => Start(l.clock)
  }

  function Run(l: Log, events: seq<Event>): Log
    decreases |events|
  {
    if events == [] then l else Run(Step(l, events[0]), events[1..])
  }

  /** Ticks read a clock that never goes back. */
  predicate Monotone(events: seq<Event>, clock: int)
    decreases |events|
  {
    events == [] ||
    match events[0]
    case Ticked(now) => clock <= now && Monotone(events[1..], now)
    case _ => Monotone(events[1..], clock)
  }

  predicate OnTime(l: Log) {
    && Safe(l.car)
    && (l.car.phase == Moving ==>
          && l.car.deadline == l.legStart + MILLISECONDS_PER_FLOOR * (l.legFloors + 1)
          && l.car.position == if l.car.movingDirection == UP then l.legOrigin + l.legFloors
                               else l.legOrigin - l.legFloors)
    && l.legFloors * MILLISECONDS_PER_FLOOR <= l.clock - l.legStart
    && (l.car.phase == DoorOpen ==> l.car.deadline == l.openedAt + DOOR_DWELL_MILLISECONDS)
    && forall i :: 0 <= i < |l.openings| ==> DOOR_DWELL_MILLISECONDS <= l.openings[i].1 - l.openings[i].0
  }

  lemma StepOnTime(l: Log, e: Event)
    requires OnTime(l) && (e.Ticked? ==> l.clock <= e.now)
    ensures OnTime(Step(l, e))
  {
    StepSafe(l.car, e);
  }

  /** Over every run on a clock that never goes back: the deadline of a moving car is
      exactly its departure plus one travel time for every floor begun, so a leg never
      covers more floors than whole travel times have passed, and no opening is shorter
      than the dwell. */
  lemma {:induction false} NoDrift(l: Log, events: seq<Event>)
    requires OnTime(l) && Monotone(events, l.clock)
    ensures var after := Run(l, events);
            && OnTime(after)
            && after.legFloors <= (after.clock - after.legStart) / MILLISECONDS_PER_FLOOR
            && after.car == Lift.Run(l.car, events)
    decreases |events|
  {
    if events != [] {
      StepOnTime(l, events[0]);
      NoDrift(Step(l, events[0]), events[1..]);
    }
  }

  /** From power-on, over every run: a departure at `t0` that has gone `k` floors is due at the
      next exactly at `t0 + 2000 * (k + 1)`, and every finished opening lasted its dwell. */
  lemma TimesFromPowerOn(clock: int, events: seq<Event>)
    requires Monotone(events, clock)
    ensures var l := Run(Start(clock), events);
            && l.car == Lift.Run(PowerOn(), events)
            && (l.car.phase == Moving ==> l.car.deadline == l.legStart + 2000 * (l.legFloors + 1))
            && l.legFloors <= (l.clock - l.legStart) / 2000
            && forall i :: 0 <= i < |l.openings| ==> l.openings[i].1 - l.openings[i].0 >= 3000
  {
    hide Run;
    NoDrift(Start(clock), events);
  }
}
