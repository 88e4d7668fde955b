/** The elevator car and the group's Landing_Call_Control as the device holds them:
    fields and a fixed array that the callbacks update in place. */
module LiftController {
  import opened Octets
  import Lift

  /** Moves the calls for other floors to the front of the array, in order. */
  method Compact(calls: array<Lift.Call>, count: nat, floor: byte) returns (kept: nat)
    requires count <= calls.Length
    modifies calls
    ensures kept <= count
    ensures calls[..kept] == Lift.Waiting(old(calls[..count]), floor)
  {
    ghost var was := calls[..count];
    kept := 0;
    for i := 0 to count
      invariant kept <= i
      invariant calls[..kept] == Lift.Waiting(was[..i], floor)
      invariant forall k :: i <= k < count ==> calls[k] == was[k]
    {
      hide Lift.Waiting;
      assert was[..i + 1] == was[..i] + [was[i]];
      Lift.WaitingSplit(was[..i], was[i], floor);
      if calls[i].floor != floor {
        ghost var before := calls[..kept];
        calls[kept] := calls[i];
        kept := kept + 1;
        assert calls[..kept] == before + [was[i]];
      }
    }
    assert was[..count] == was;
  }

  class LiftCar {
    var position: byte
    var movingDirection: nat
    var doorStatus: nat
    var phase: Lift.Phase
    var phaseDeadline: int
    const calls: array<Lift.Call>
    var callCount: nat

    ghost predicate Valid()
      reads this
    {
      calls.Length == Lift.MAX_LANDING_CALLS && callCount <= calls.Length
    }

    ghost function State(): Lift.Car
      reads this, calls
      requires Valid()
    {
      Lift.Car(position, movingDirection, doorStatus, phase, phaseDeadline, calls[..callCount])
    }

    constructor ()
      ensures Valid() && fresh(calls)
      ensures State() == Lift.PowerOn()
    {
      position, movingDirection, doorStatus := Lift.START_FLOOR, Lift.STOPPED, Lift.CLOSED;
      phase, phaseDeadline, callCount := Lift.Idle, 0, 0;
      calls := new Lift.Call[Lift.MAX_LANDING_CALLS](_ => Lift.Call(0, 0));
    }

    /** A cold start assigns a new car over this one. */
    method Reset()
      requires Valid()
      modifies this, calls
      ensures Valid()
      ensures State() == Lift.PowerOn()
    {
      position, movingDirection, doorStatus := Lift.START_FLOOR, Lift.STOPPED, Lift.CLOSED;
      phase, phaseDeadline, callCount := Lift.Idle, 0, 0;
      forall i | 0 <= i < calls.Length { calls[i] := Lift.Call(0, 0); }
    }

    method OpenDoor(now: int)
      requires Valid()
      modifies this, calls
      ensures Valid()
      ensures State() == Lift.OpenDoor(old(State()), now)
    {
      callCount := Compact(calls, callCount, position);
      movingDirection, doorStatus := Lift.STOPPED, Lift.OPENED;
      phase, phaseDeadline := Lift.DoorOpen, now + Lift.DOOR_DWELL_MILLISECONDS;
    }

    method HasCallAt(floor: byte) returns (found: bool)
      requires Valid()
      ensures found == Lift.HasCallAt(calls[..callCount], floor)
    {
      for i := 0 to callCount
        invariant forall k :: 0 <= k < i ==> calls[k].floor != floor
      {
        if calls[i].floor == floor {
          assert calls[..callCount][i].floor == floor;
          return true;
        }
      }
      return false;
    }

    method Tick(now: int)
      requires Valid()
      modifies this, calls
      ensures Valid()
      ensures State() == Lift.Tick(old(State()), now)
    {
      match phase
      case Idle =>
        if callCount == 0 { return; }
        var here := HasCallAt(position);
        if here {
          OpenDoor(now);
          return;
        }
        movingDirection := if calls[0].floor > position then Lift.UP else Lift.DOWN;
        phase, phaseDeadline := Lift.Moving, now + Lift.MILLISECONDS_PER_FLOOR;
      case Moving =>
        if now < phaseDeadline { return; }
        position := if movingDirection == Lift.UP then (position + 1) % 256 else (position + 255) % 256;
        var here := HasCallAt(position);
        if here {
          OpenDoor(now);
        } else {
          phaseDeadline := phaseDeadline + Lift.MILLISECONDS_PER_FLOOR;
        }
      case DoorOpen =>
        if now < phaseDeadline { return; }
        doorStatus, phase := Lift.CLOSED, Lift.Idle;
    }
  }

  /** The group: the car and the last Landing_Call_Control it accepted. */
  class ElevatorGroup {
    const car: LiftCar
    var lastControl: Option<Lift.Control>

    constructor ()
      ensures car.Valid() && fresh(car) && fresh(car.calls)
      ensures car.State() == Lift.PowerOn() && lastControl == None
    {
      car := new LiftCar();
      lastControl := None;
    }

    method ColdStart()
      requires car.Valid()
      modifies this, car, car.calls
      ensures car.Valid()
      ensures car.State() == Lift.Step(old(car.State()), Lift.ColdStart) && lastControl == None
    {
      car.Reset();
      lastControl := None;
    }

    /** A write of Landing_Call_Control; a refused write leaves everything as it was. */
    method SetLandingCallControl(w: Lift.Control) returns (accepted: bool)
      requires car.Valid()
      modifies this, car, car.calls
      ensures car.Valid()
      ensures accepted == Lift.Accepts(old(car.State()), w)
      ensures car.State() == Lift.Press(old(car.State()), w)
      ensures lastControl == if accepted then Some(w) else old(lastControl)
    {
      if w.floor < Lift.LOWEST_FLOOR || w.floor > Lift.HIGHEST_FLOOR { return false; }
      var direction := w.direction;
      if w.choice == Lift.COMMAND_DESTINATION {
        if w.destination < Lift.LOWEST_FLOOR || w.destination > Lift.HIGHEST_FLOOR || w.destination == w.floor {
          return false;
        }
        direction := if w.destination > w.floor then Lift.UP else Lift.DOWN;
      } else if direction != Lift.UP && direction != Lift.DOWN {
        return false;
      }
      var call := Lift.Call(w.floor, direction);
      assert Lift.RequestedCall(w) == Some(call);
      var alreadyCalled := false;
      for i := 0 to car.callCount
        invariant alreadyCalled == (call in car.calls[..i])
      {
        assert car.calls[..i + 1] == car.calls[..i] + [car.calls[i]];
        if car.calls[i].floor == w.floor && car.calls[i].direction == direction {
          alreadyCalled := true;
        }
      }
      if !alreadyCalled {
        if car.callCount >= Lift.MAX_LANDING_CALLS { return false; }
        car.calls[car.callCount] := call;
        car.callCount := car.callCount + 1;
        assert car.calls[..car.callCount] == old(car.calls[..car.callCount]) + [call];
      }
      lastControl := Some(w);
      return true;
    }

    /** A read of Landing_Call_Control: the last write that was accepted, or no call at all. */
    method LandingCallControl() returns (w: Lift.Control)
      ensures lastControl.Some? ==> w == lastControl.value
      ensures lastControl.None? ==> Lift.RequestedCall(w) == None && w.floor == 0 && w.choice == 1 && w.direction == 1
      ensures lastControl.None? ==> w.destination == 0
    {
      if lastControl.Some? { return lastControl.value; }
      return Lift.Control(0, Lift.COMMAND_DIRECTION, Lift.NONE, 0);
    }

    /** One page of Landing_Calls: element `index` and whether more follow; None past the end. */
    method LandingCallAt(index: nat) returns (page: Option<(Lift.Call, bool)>)
      requires car.Valid()
      ensures page == if index < |car.State().calls|
                      then Some((car.State().calls[index], index + 1 < |car.State().calls|))
                      else None
    {
      if index < car.callCount {
        return Some((car.calls[index], index + 1 < car.callCount));
      }
      return None;
    }
  }
}
