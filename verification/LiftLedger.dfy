/** An account of every landing call, kept by watching only the list of waiting calls,
    the car's position and its door: calls are numbered as they are accepted, and a call
    that leaves the list is written down with where the car was and what its door did. */
module LiftLedger {
  import opened Octets
  import opened Lift
  import opened LiftSafety

  datatype Answer = Answer(ticket: nat, floor: byte, doorStatus: nat)

  datatype Ledger = Ledger(car: Car, accepted: seq<Call>, tickets: seq<nat>, answers: seq<Answer>)

  function Start(): Ledger {
    Ledger(PowerOn(), [], [], [])
  }

  predicate Numbered(tickets: seq<nat>, accepted: seq<Call>) {
    forall i :: 0 <= i < |tickets| ==> tickets[i] < |accepted|
  }

  /** The tickets whose call is still in `calls`, and the others as answers. */
  function StillWaiting(tickets: seq<nat>, accepted: seq<Call>, calls: seq<Call>): seq<nat>
    requires Numbered(tickets, accepted)
  {
    if tickets == [] then []
    else
      var n := |tickets| - 1;
      StillWaiting(tickets[..n], accepted, calls) +
      (if accepted[tickets[n]] in calls then [tickets[n]] else [])
  }

  function Left(tickets: seq<nat>, accepted: seq<Call>, car: Car): seq<Answer>
    requires Numbered(tickets, accepted)
  {
    if tickets == [] then []
    else
      var n := |tickets| - 1;
      Left(tickets[..n], accepted, car) +
      (if accepted[tickets[n]] in car.calls then []
       else [Answer(tickets[n], car.position, car.doorStatus)])
  }

  function Fresh(from: nat, count: nat): seq<nat> {
    seq(count, i => from + i)
  }

  /** The next page of the account when the car is next seen as `car`. */
  function Observe(l: Ledger, car: Car): Ledger
    requires Numbered(l.tickets, l.accepted)
  {
    var stay := StillWaiting(l.tickets, l.accepted, car.calls);
    var arrived := if |stay| <= |car.calls| then car.calls[|stay|..] else [];
    Ledger(car,
           l.accepted + arrived,
           stay + Fresh(|l.accepted|, |arrived|),
           l.answers + Left(l.tickets, l.accepted, car))
  }

  predicate Increasing(tickets: seq<nat>) {
    forall i, j :: 0 <= i < j < |tickets| ==> tickets[i] < tickets[j]
  }

  /** The waiting calls are accepted ones, in acceptance order. */
  predicate InOrder(l: Ledger) {
    && Numbered(l.tickets, l.accepted)
    && |l.tickets| == |l.car.calls|
    && (forall i :: 0 <= i < |l.tickets| ==> l.accepted[l.tickets[i]] == l.car.calls[i])
    && Increasing(l.tickets)
  }

  /** `a` answers an accepted call that no longer waits, by an open door at its floor. */
  predicate Answers(l: Ledger, a: Answer) {
    && a.ticket < |l.accepted|
    && a.ticket !in l.tickets
    && a.floor == l.accepted[a.ticket].floor
    && a.doorStatus == OPENED
  }

  predicate OnceEach(answers: seq<Answer>) {
    forall i, j :: 0 <= i < j < |answers| ==> answers[i].ticket != answers[j].ticket
  }

  /** Calls accepted are calls answered plus calls waiting, each answered once and only by
      the door opening at its own floor. */
  predicate Balanced(l: Ledger) {
    && InOrder(l)
    && |l.accepted| == |l.answers| + |l.tickets|
    && (forall i :: 0 <= i < |l.answers| ==> Answers(l, l.answers[i]))
    && OnceEach(l.answers)
  }

  function Follow(l: Ledger, events: seq<Event>): Ledger
    requires Safe(l.car) && Balanced(l) && ColdStart !in events
    decreases |events|
  {
    if events == [] then l
    else
      StepBalanced(l, events[0]);
      StepSafe(l.car, events[0]);
      Follow(Observe(l, Step(l.car, events[0])), events[1..])
  }

  lemma {:induction false} AllStay(tickets: seq<nat>, accepted: seq<Call>, car: Car)
    requires Numbered(tickets, accepted)
    requires forall i :: 0 <= i < |tickets| ==> accepted[tickets[i]] in car.calls
    ensures StillWaiting(tickets, accepted, car.calls) == tickets
    ensures Left(tickets, accepted, car) == []
    decreases |tickets|
  {
    if tickets != [] {
      AllStay(tickets[..|tickets| - 1], accepted, car);
    }
  }

  lemma {:induction false} StayingMembers(tickets: seq<nat>, accepted: seq<Call>, calls: seq<Call>)
    requires Numbered(tickets, accepted)
    ensures forall t :: t in StillWaiting(tickets, accepted, calls) ==>
              t in tickets && t < |accepted| && accepted[t] in calls
    decreases |tickets|
  {
    if tickets != [] {
      var n := |tickets| - 1;
      StayingMembers(tickets[..n], accepted, calls);
      assert tickets == tickets[..n] + [tickets[n]];
    }
  }

  lemma {:induction false} StayingTickets(tickets: seq<nat>, accepted: seq<Call>, calls: seq<Call>)
    requires Numbered(tickets, accepted) && Increasing(tickets)
    ensures Increasing(StillWaiting(tickets, accepted, calls))
    decreases |tickets|
  {
    if tickets != [] {
      var n := |tickets| - 1;
      var front := StillWaiting(tickets[..n], accepted, calls);
      StayingTickets(tickets[..n], accepted, calls);
      StayingMembers(tickets[..n], accepted, calls);
      forall i | 0 <= i < |front|
        ensures front[i] < tickets[n]
      {
        assert front[i] in tickets[..n];
      }
    }
  }

  /** The tickets of the calls a stop leaves waiting name those calls, in order. */
  lemma {:induction false} StayingNames(tickets: seq<nat>, accepted: seq<Call>, calls: seq<Call>, car: Car)
    requires Numbered(tickets, accepted) && |tickets| == |calls|
    requires forall i :: 0 <= i < |tickets| ==> accepted[tickets[i]] == calls[i]
    requires forall i :: 0 <= i < |calls| ==> (calls[i] in car.calls <==> calls[i].floor != car.position)
    ensures var stay := StillWaiting(tickets, accepted, car.calls);
            var left := Waiting(calls, car.position);
            && |stay| == |left| && Numbered(stay, accepted)
            && forall i :: 0 <= i < |stay| ==> accepted[stay[i]] == left[i]
    decreases |tickets|
  {
    if tickets != [] {
      StayingNames(tickets[..|tickets| - 1], accepted, calls[..|tickets| - 1], car);
    }
  }

  /** The tickets that leave are the others, each once, with the car's floor and door. */
  lemma {:induction false} LeavingTickets(tickets: seq<nat>, accepted: seq<Call>, car: Car)
    requires Numbered(tickets, accepted) && Increasing(tickets)
    ensures var gone := Left(tickets, accepted, car);
            && |gone| + |StillWaiting(tickets, accepted, car.calls)| == |tickets|
            && (forall i :: 0 <= i < |gone| ==>
                  && gone[i].ticket in tickets && accepted[gone[i].ticket] !in car.calls
                  && gone[i].floor == car.position && gone[i].doorStatus == car.doorStatus)
            && OnceEach(gone)
    decreases |tickets|
  {
    if tickets != [] {
      LeavingTickets(tickets[..|tickets| - 1], accepted, car);
    }
  }

  lemma StopInOrder(l: Ledger, car: Car)
    requires InOrder(l) && car.calls == Waiting(l.car.calls, car.position)
    ensures var stay := StillWaiting(l.tickets, l.accepted, car.calls);
            && Observe(l, car) == Ledger(car, l.accepted, stay, l.answers + Left(l.tickets, l.accepted, car))
            && InOrder(Observe(l, car))
  {
    WaitingMembers(l.car.calls, car.position);
    StayingNames(l.tickets, l.accepted, l.car.calls, car);
    StayingTickets(l.tickets, l.accepted, car.calls);
  }

  lemma StopBalanced(l: Ledger, car: Car)
    requires Balanced(l)
    requires car.calls == Waiting(l.car.calls, car.position) && car.doorStatus == OPENED
    ensures Balanced(Observe(l, car))
  {
    var l' := Observe(l, car);
    var gone := Left(l.tickets, l.accepted, car);
    StopInOrder(l, car);
    LeavingTickets(l.tickets, l.accepted, car);
    StayingMembers(l.tickets, l.accepted, car.calls);
    forall i | 0 <= i < |gone|
      ensures Answers(l', gone[i]) && gone[i].ticket in l.tickets
    {
      var k :| 0 <= k < |l.tickets| && l.tickets[k] == gone[i].ticket;
      WaitingMembers(l.car.calls, car.position);
      assert l.car.calls[k] !in car.calls;
    }
    forall i | 0 <= i < |l.answers|
      ensures Answers(l', l.answers[i]) && l.answers[i].ticket !in l.tickets
    {
      assert Answers(l, l.answers[i]);
    }
  }

  lemma ArrivalInOrder(l: Ledger, car: Car)
    requires InOrder(l) && l.car.calls <= car.calls
    ensures var arrived := car.calls[|l.car.calls|..];
            && Observe(l, car) ==
               Ledger(car, l.accepted + arrived, l.tickets + Fresh(|l.accepted|, |arrived|), l.answers)
            && InOrder(Observe(l, car))
  {
    hide StillWaiting, Left;
    AllStay(l.tickets, l.accepted, car);
    var n, added := |l.tickets|, Fresh(|l.accepted|, |car.calls| - |l.tickets|);
    var tickets, accepted := l.tickets + added, l.accepted + car.calls[n..];
    forall i | 0 <= i < |tickets|
      ensures tickets[i] < |accepted| && accepted[tickets[i]] == car.calls[i]
    {
      if i < n {
        assert tickets[i] == l.tickets[i] && l.accepted[l.tickets[i]] == l.car.calls[i];
      } else {
        assert tickets[i] == added[i - n];
      }
    }
  }

  lemma ArrivalBalanced(l: Ledger, car: Car)
    requires Balanced(l) && l.car.calls <= car.calls
    ensures Balanced(Observe(l, car))
  {
    ArrivalInOrder(l, car);
    forall i | 0 <= i < |l.answers|
      ensures Answers(Observe(l, car), l.answers[i])
    {
      assert Answers(l, l.answers[i]);
    }
  }

  /** What the watcher sees arrive is what the write asked for, when it was accepted and its
      button was not lit; nothing else arrives. */
  lemma StepAccepted(l: Ledger, e: Event)
    requires InOrder(l) && e != ColdStart
    ensures Observe(l, Step(l.car, e)).accepted == l.accepted + QueuedBy(l.car, e)
  {
    hide StillWaiting, Left, Waiting, HasCallAt;
    var car := Step(l.car, e);
    if car.phase == DoorOpen && l.car.phase != DoorOpen && e.Ticked? {
      StopInOrder(l, car);
    } else {
      ArrivalInOrder(l, car);
    }
  }

  lemma StepBalanced(l: Ledger, e: Event)
    requires Safe(l.car) && Balanced(l) && e != ColdStart
    ensures Balanced(Observe(l, Step(l.car, e)))
    ensures Observe(l, Step(l.car, e)).accepted == l.accepted + QueuedBy(l.car, e)
  {
    var car := Step(l.car, e);
    StepAccepted(l, e);
    if car.phase == DoorOpen && l.car.phase != DoorOpen && e.Ticked? {
      StopBalanced(l, car);
    } else {
      ArrivalBalanced(l, car);
    }
  }

  /** After any run of calls and ticks the account balances, the car it followed is the car of
      the run, the calls it lists are exactly those the accepted writes asked for, in order,
      and no earlier answer has changed. */
  lemma {:induction false} EveryCallAccountedFor(l: Ledger, events: seq<Event>)
    requires Safe(l.car) && Balanced(l) && ColdStart !in events
    ensures Balanced(Follow(l, events))
    ensures Follow(l, events).car == Run(l.car, events)
    ensures Follow(l, events).accepted == l.accepted + Queued(l.car, events)
    ensures l.answers <= Follow(l, events).answers
    decreases |events|
  {
    hide QueuedBy, Lift.Step;
    if events != [] {
      StepBalanced(l, events[0]);
      StepSafe(l.car, events[0]);
      EveryCallAccountedFor(Observe(l, Step(l.car, events[0])), events[1..]);
    }
  }

  /** From power-on, over every run of writes and ticks up to a cold start: the calls that the
      accepted writes asked for are the calls answered plus the calls waiting. Each was answered
      once, by the door opening at its own floor, and those waiting keep the order of their
      writes. */
  lemma CallsAreConserved(events: seq<Event>)
    requires ColdStart !in events
    ensures var l := Follow(Start(), events);
            && l.car == Run(PowerOn(), events)
            && l.accepted == Queued(PowerOn(), events)
            && Balanced(l)
            && |Queued(PowerOn(), events)| == |l.answers| + |Run(PowerOn(), events).calls|
  {
    hide Follow, Queued;
    EveryCallAccountedFor(Start(), events);
    assert [] + Queued(PowerOn(), events) == Queued(PowerOn(), events);
  }

  /** Every accepted call is waiting or has been answered, and not both. */
  lemma WaitingOrAnswered(l: Ledger, t: nat)
    requires Balanced(l) && t < |l.accepted|
    ensures (t in l.tickets) != (exists i :: 0 <= i < |l.answers| && l.answers[i].ticket == t)
  {
    var answerTickets := seq(|l.answers|, i requires 0 <= i < |l.answers| => l.answers[i].ticket);
    var waiting := set i | 0 <= i < |l.tickets| :: l.tickets[i];
    var answered := set i | 0 <= i < |answerTickets| :: answerTickets[i];
    var all := Range(|l.accepted|);
    DistinctCount(l.tickets);
    DistinctCount(answerTickets);
    forall i | 0 <= i < |l.answers|
      ensures answerTickets[i] < |l.accepted| && answerTickets[i] !in l.tickets
    {
      assert Answers(l, l.answers[i]);
    }
    assert waiting !! answered;
    SubsetFull(waiting + answered, all);
    assert t in all;
  }

  lemma {:induction false} DistinctCount(s: seq<nat>)
    requires forall i, j :: 0 <= i < j < |s| ==> s[i] != s[j]
    ensures |set i | 0 <= i < |s| :: s[i]| == |s|
    decreases |s|
  {
    if s != [] {
      var n := |s| - 1;
      DistinctCount(s[..n]);
      assert (set i | 0 <= i < |s| :: s[i]) == (set i | 0 <= i < |s[..n]| :: s[..n][i]) + {s[n]};
    }
  }

  function Range(n: nat): (r: set<nat>)
    ensures |r| == n
    ensures forall i: nat :: i in r <==> i < n
  {
    if n == 0 then {} else Range(n - 1) + {n - 1}
  }

  lemma SubsetFull(a: set<nat>, b: set<nat>)
    requires a <= b && |a| == |b|
    ensures a == b
  {
    assert |b - a| == |b| - |a|;
  }
}
