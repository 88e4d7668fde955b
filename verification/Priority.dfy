/** Commandable values: a 16-slot Priority_Array and a Relinquish_Default (clause 19.2 of
    ANSI/ASHRAE 135). Slots hold any type of value. */
module Priority {
  import opened Octets

  const SLOTS := 16

  type Slots<T> = seq<Option<T>>

  datatype Op<T> = Command(priority: byte, value: T) | Relinquish(priority: byte)

  /** A priority outside 1..16 counts as 16. */
  function Effective(priority: byte): (p: nat)
    ensures 1 <= p <= SLOTS
  {
    if 1 <= priority <= 16 then priority else 16
  }

  function Empty<T>(): (s: Slots<T>)
    ensures |s| == SLOTS
  {
    seq(SLOTS, _ => None)
  }

  function Step<T>(s: Slots<T>, op: Op<T>): (r: Slots<T>)
    requires |s| == SLOTS
    ensures |r| == SLOTS
  {
    s[Effective(op.priority) - 1 := if op.Command? then Some(op.value) else None]
  }

  function Run<T>(s: Slots<T>, ops: seq<Op<T>>): (r: Slots<T>)
    requires |s| == SLOTS
    ensures |r| == SLOTS
    decreases |ops|
  {
    if ops == [] then s else Run(Step(s, ops[0]), ops[1..])
  }

  /** The first slot that is set, else the default. */
  function Resolve<T>(s: Slots<T>, default_: T): T {
    if s == [] then default_ else if s[0].Some? then s[0].value else Resolve(s[1..], default_)
  }

  // ---- What a run of commands amounts to ----

  /** The latest command at priority `p`, unless it was relinquished since. */
  function Standing<T>(ops: seq<Op<T>>, p: nat): Option<T> {
    if ops == [] then None
    else
      var op := ops[|ops| - 1];
      if Effective(op.priority) == p then (if op.Command? then Some(op.value) else None)
      else Standing(ops[..|ops| - 1], p)
  }

  lemma {:induction false} RunConcat<T>(s: Slots<T>, a: seq<Op<T>>, b: seq<Op<T>>)
    requires |s| == SLOTS
    ensures Run(s, a + b) == Run(Run(s, a), b)
    decreases |a|
  {
    if a == [] {
      assert a + b == b;
    } else {
      assert (a + b)[1..] == a[1..] + b;
      RunConcat(Step(s, a[0]), a[1..], b);
    }
  }

  lemma {:induction false} SlotsHoldHistory<T>(ops: seq<Op<T>>, p: nat)
    requires 1 <= p <= SLOTS
    ensures Run(Empty(), ops)[p - 1] == Standing(ops, p)
    decreases |ops|
  {
    if ops != [] {
      var n := |ops| - 1;
      assert ops == ops[..n] + [ops[n]];
      RunConcat(Empty(), ops[..n], [ops[n]]);
      var before: Slots<T> := Run(Empty(), ops[..n]);
      assert [ops[n]][1..] == [];
      assert Run(before, [ops[n]]) == Step(before, ops[n]);
      SlotsHoldHistory(ops[..n], p);
    }
  }

  lemma {:induction false} ResolveIs<T>(s: Slots<T>, default_: T, k: nat)
    requires k <= |s| && forall i :: 0 <= i < k ==> s[i] == None
    ensures Resolve(s, default_) == if k == |s| then default_
                                    else if s[k].Some? then s[k].value
                                    else Resolve(s[k..], default_)
    decreases k
  {
    if k > 0 {
      assert s[1..][k - 1..] == s[k..];
      ResolveIs(s[1..], default_, k - 1);
    } else {
      assert s[0..] == s;
    }
  }

  /** After any run of commands and relinquishes: the standing command of the lowest-numbered
      priority that has one is the Present_Value, and without any it is the default. */
  lemma PresentValueIs<T>(ops: seq<Op<T>>, default_: T, p: nat)
    requires 1 <= p <= SLOTS + 1 && forall q :: 1 <= q < p ==> Standing(ops, q) == None
    ensures p == SLOTS + 1 ==> Resolve(Run(Empty(), ops), default_) == default_
    ensures p <= SLOTS && Standing(ops, p).Some? ==> Resolve(Run(Empty(), ops), default_) == Standing(ops, p).value
  {
    var s := Run(Empty(), ops);
    forall i | 0 <= i < p - 1
      ensures s[i] == None
    {
      SlotsHoldHistory(ops, i + 1);
    }
    ResolveIs(s, default_, p - 1);
    if p <= SLOTS {
      SlotsHoldHistory(ops, p);
    }
  }

  lemma {:induction false} StepsCommute<T>(s: Slots<T>, ops: seq<Op<T>>, k: nat, v: Option<T>)
    requires |s| == SLOTS && k < SLOTS && forall i :: 0 <= i < |ops| ==> Effective(ops[i].priority) - 1 != k
    ensures Run(s[k := v], ops) == Run(s, ops)[k := v]
    decreases |ops|
  {
    if ops != [] {
      var op := ops[0];
      assert Effective(op.priority) - 1 != k;
      assert Step(s[k := v], op) == Step(s, op)[k := v];
      StepsCommute(Step(s, op), ops[1..], k, v);
    }
  }

  /** Commanding an empty slot and relinquishing it later, with nothing else at that priority
      in between, leaves no trace in the rest of the run. */
  lemma {:induction false} CommandThenRelinquish<T>(a: seq<Op<T>>, command: Op<T>, b: seq<Op<T>>, relinquish: Op<T>,
      c: seq<Op<T>>)
    requires command.Command? && relinquish.Relinquish?
    requires Effective(command.priority) == Effective(relinquish.priority)
    requires Standing(a, Effective(command.priority)) == None
    requires forall i :: 0 <= i < |b| ==> Effective(b[i].priority) != Effective(command.priority)
    ensures Run(Empty(), a + ([command] + (b + ([relinquish] + c)))) == Run(Empty(), a + (b + c))
  {
    var k := Effective(command.priority) - 1;
    var s := Run(Empty(), a);
    SlotsHoldHistory(a, k + 1);
    RunConcat(Empty(), a, [command] + (b + ([relinquish] + c)));
    RunConcat(Empty(), a, b + c);
    RunConcat(s, [command], b + ([relinquish] + c));
    RunOne(s, command);
    RunConcat(Step(s, command), b, [relinquish] + c);
    RunConcat(s, b, c);
    StepsCommute(s, b, k, Some(command.value));
    var t := Run(Step(s, command), b);
    RunConcat(t, [relinquish], c);
    RunOne(t, relinquish);
    StepsCommute(s, b, k, None);
    assert s[k := None] == s;
    assert Step(t, relinquish) == Run(s, b);
  }

  lemma RunOne<T>(s: Slots<T>, op: Op<T>)
    requires |s| == SLOTS
    ensures Run(s, [op]) == Step(s, op)
  {
    assert [op][1..] == [];
  }

  // ---- Legal states ----

  /** The values a write may store: any REAL, 0 or 1, or a state 1..3. */
  datatype Output = Analog | Binary | MultiState

  predicate Legal(o: Output, value: real) {
    match o
    case Analog => true
    case Binary => value == 0.0 || value == 1.0
    case MultiState => value == 1.0 || value == 2.0 || value == 3.0
  }

  predicate AllLegal(o: Output, s: Slots<real>) {
    forall i :: 0 <= i < |s| && s[i].Some? ==> Legal(o, s[i].value)
  }

  /** The device's outputs: slots that may hold a stale value while they are not set. */
  class Commandable {
    const isSet: array<bool>
    const value: array<real>
    var relinquishDefault: real

    ghost predicate Valid()
      reads this
    {
      isSet.Length == SLOTS && value.Length == SLOTS
    }

    ghost function Visible(): (s: Slots<real>)
      reads this, isSet, value
      requires Valid()
      ensures |s| == SLOTS
    {
      seq(SLOTS, i requires 0 <= i < SLOTS reads this, isSet, value requires Valid() =>
        if isSet[i] then Some(value[i]) else None)
    }

    constructor (default_: real)
      ensures Valid() && fresh(isSet) && fresh(value)
      ensures Visible() == Empty() && relinquishDefault == default_
    {
      isSet := new bool[SLOTS](_ => false);
      value := new real[SLOTS](_ => 0.0);
      relinquishDefault := default_;
    }

    method CommandWrite(priority: byte, v: real)
      requires Valid()
      modifies isSet, value
      ensures Visible() == Step(old(Visible()), Command(priority, v))
    {
      var p := Effective(priority);
      isSet[p - 1] := true;
      value[p - 1] := v;
    }

    method CommandRelinquish(priority: byte)
      requires Valid()
      modifies isSet
      ensures Visible() == Step(old(Visible()), Relinquish(priority))
    {
      var p := Effective(priority);
      isSet[p - 1] := false;
    }

    /** A read of Priority_Array[index]; None when that is not an element. */
    method ReadPrioritySlot(index: nat) returns (slot: Option<Option<real>>)
      requires Valid()
      ensures slot == if 1 <= index <= SLOTS then Some(Visible()[index - 1]) else None
    {
      if index < 1 || index > SLOTS { return None; }
      return Some(if isSet[index - 1] then Some(value[index - 1]) else None);
    }

    /** An ENUMERATED or Unsigned write of Present_Value: refused when it is not a state of
        the object, and then nothing changes. */
    method WriteState(o: Output, v: nat, priority: byte) returns (ok: bool)
      requires Valid() && o != Analog
      modifies isSet, value
      ensures ok == Legal(o, v as real)
      ensures Visible() == Attempted(o, old(Visible()), WriteOf(v, priority))
      ensures old(AllLegal(o, Visible())) ==> AllLegal(o, Visible())
    {
      if (o == Binary && v > 1) || (o == MultiState && (v < 1 || v > 3)) { return false; }
      CommandWrite(priority, v as real);
      return true;
    }
  }

  /** The states that can be written: 0 and 1, or 1 to 3; any value of an Analog output. */
  lemma LegalStates(v: nat)
    ensures Legal(Binary, v as real) <==> v <= 1
    ensures Legal(MultiState, v as real) <==> 1 <= v <= 3
    ensures Legal(Analog, v as real)
  {
  }

  // ---- Attempted writes ----

  /** What a client may send for Present_Value: any value at any priority, or NULL. */
  datatype Attempt = WriteOf(value: nat, priority: byte) | NullAt(priority: byte)

  /** A value that is not a state of the object is refused and changes nothing. */
  function Attempted(o: Output, s: Slots<real>, a: Attempt): (r: Slots<real>)
    requires |s| == SLOTS
    ensures |r| == SLOTS
  {
    match a
    case WriteOf(v, priority) => if Legal(o, v as real) then Step(s, Command(priority, v as real)) else s
    case NullAt(priority) => Step(s, Relinquish(priority))
  }

  function RunAttempts(o: Output, s: Slots<real>, attempts: seq<Attempt>): (r: Slots<real>)
    requires |s| == SLOTS
    ensures |r| == SLOTS
    decreases |attempts|
  {
    if attempts == [] then s else RunAttempts(o, Attempted(o, s, attempts[0]), attempts[1..])
  }

  /** The commands and relinquishes among the attempts, in order. */
  function Taken(o: Output, attempts: seq<Attempt>): seq<Op<real>> {
    if attempts == [] then []
    else
      (match attempts[0]
       case WriteOf(v, priority) => if Legal(o, v as real) then [Command(priority, v as real)] else []
       case NullAt(priority) => [Relinquish(priority)])
      + Taken(o, attempts[1..])
  }

  /** A run of attempts is the run of those that were taken, so refused writes leave no trace
      and the history theorems speak of the rest. */
  lemma {:induction false} AttemptsAreTaken(o: Output, s: Slots<real>, attempts: seq<Attempt>)
    requires |s| == SLOTS
    ensures RunAttempts(o, s, attempts) == Run(s, Taken(o, attempts))
    decreases |attempts|
  {
    hide Step, Legal;
    if attempts != [] {
      var s' := Attempted(o, s, attempts[0]);
      var rest := Taken(o, attempts[1..]);
      AttemptsAreTaken(o, s', attempts[1..]);
      if attempts[0].WriteOf? && !Legal(o, attempts[0].value as real) {
        assert Taken(o, attempts) == rest;
      } else {
        var op := Taken(o, attempts)[0];
        assert Taken(o, attempts)[1..] == rest && Step(s, op) == s';
      }
    }
  }

  /** Over every run of attempted writes, of any value at any priority, and of NULLs, each slot
      of a Binary or Multi-State output holds a state of the object and so does its
      Present_Value. */
  lemma {:induction false} SlotsStayLegal(o: Output, s: Slots<real>, attempts: seq<Attempt>, default_: real)
    requires |s| == SLOTS && AllLegal(o, s) && Legal(o, default_)
    ensures AllLegal(o, RunAttempts(o, s, attempts))
    ensures Legal(o, Resolve(RunAttempts(o, s, attempts), default_))
    decreases |attempts|
  {
    if attempts == [] {
      ResolveLegal(o, s, default_);
    } else {
      SlotsStayLegal(o, Attempted(o, s, attempts[0]), attempts[1..], default_);
    }
  }

  lemma {:induction false} ResolveLegal(o: Output, s: Slots<real>, default_: real)
    requires AllLegal(o, s) && Legal(o, default_)
    ensures Legal(o, Resolve(s, default_))
    decreases |s|
  {
    if s != [] && s[0].None? {
      assert forall i :: 0 <= i < |s[1..]| ==> s[1..][i] == s[i + 1];
      ResolveLegal(o, s[1..], default_);
    }
  }

  // ---- Which slot ----

  /** A command or relinquish at priority 1 to 16 acts on that slot of the array, at any other on
      slot 16, and on no other slot. */
  lemma ActsOn<T>(s: Slots<T>, op: Op<T>)
    requires |s| == 16
    ensures var k := if 1 <= op.priority <= 16 then op.priority - 1 else 15;
            && Step(s, op)[k] == (if op.Command? then Some(op.value) else None)
            && forall i :: 0 <= i < 16 && i != k ==> Step(s, op)[i] == s[i]
  {
  }
}
