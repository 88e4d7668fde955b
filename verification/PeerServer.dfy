/** The simulated server's WriteProperty: objects a test controls, some of them commanded
    through a priority array. */
module PeerServer {
  import opened Octets
  import opened Tags
  import opened PropertyServices
  import Priority

  const PRESENT_VALUE := 85
  const PRIORITY_DEFAULT := 16

  /** Error classes and codes the server answers with. */
  const OBJECT_CLASS := 1
  const PROPERTY_CLASS := 2
  const UNKNOWN_OBJECT := 31
  const WRITE_ACCESS_DENIED := 40

  datatype Reply = Ack | Refused(errorClass: nat, errorCode: nat) | Raised

  datatype Server = Server(
    objects: map<ObjectId, map<nat, Bytes>>,
    commandable: Option<set<ObjectId>>,
    writable: Option<set<(ObjectId, nat)>>,
    refusing: bool,
    slots: map<ObjectId, Priority.Slots<Bytes>>,
    defaults: map<ObjectId, Bytes>)

  /** Every commandable object has its Present_Value, its 16 slots and its default. */
  predicate Valid(srv: Server) {
    srv.commandable.Some? ==>
      forall key :: key in srv.commandable.value ==>
        && key in srv.objects && PRESENT_VALUE in srv.objects[key]
        && key in srv.slots && |srv.slots[key]| == Priority.SLOTS && key in srv.defaults
  }

  /** The Present_Value served is the one the priority array resolves to. */
  predicate Consistent(srv: Server) {
    Valid(srv) &&
    (srv.commandable.Some? ==>
       forall key :: key in srv.commandable.value ==>
         srv.objects[key][PRESENT_VALUE] == Priority.Resolve(srv.slots[key], srv.defaults[key]))
  }

  function IsNull(value: Bytes): Result<bool> {
    if value == [] then Ok(false)
    else
      var tag :- ReadTag(value);
      Ok(!tag.isContext && tag.number == 0)
  }

  predicate Commanded(srv: Server, w: Parsed) {
    srv.commandable.Some? && w.id in srv.commandable.value && w.property == PRESENT_VALUE
  }

  predicate Lists(srv: Server, w: Parsed) {
    w.id in srv.objects && w.property in srv.objects[w.id]
  }

  predicate Allowed(srv: Server, w: Parsed) {
    if srv.writable.None? then Lists(srv, w) else (w.id, w.property) in srv.writable.value
  }

  /** `(request["priority"] or 16) - 1` */
  function SlotIndex(w: Parsed): (i: nat) {
    (if w.priority.None? || w.priority.value == 0 then PRIORITY_DEFAULT else w.priority.value) - 1
  }

  /** Why a write is turned away, if it is; `check` is what a test's own check answers. */
  function Refusal(srv: Server, w: Parsed, check: Option<Reply>): Option<Reply> {
    if w.id !in srv.objects then Some(Refused(OBJECT_CLASS, UNKNOWN_OBJECT))
    else if srv.refusing || !Allowed(srv, w) then Some(Refused(PROPERTY_CLASS, WRITE_ACCESS_DENIED))
    else check
  }

  /** A NULL to a property that is not commanded is acknowledged and changes nothing. */
  predicate Absorbed(srv: Server, w: Parsed, isNull: bool) {
    srv.commandable.Some? && isNull && !Commanded(srv, w) && !srv.refusing && Lists(srv, w)
  }

  function Updated(properties: map<nat, Bytes>, property: nat, value: Bytes): map<nat, Bytes> {
    properties[property := value]
  }

  function Put(srv: Server, w: Parsed, value: Bytes): Server
    requires w.id in srv.objects
  {
    srv.(objects := srv.objects[w.id := Updated(srv.objects[w.id], w.property, value)])
  }

  /** Fills or relinquishes the slot and serves what the array resolves to; a priority past
      the last slot raises with the written value already stored. */
  function Commanding(srv: Server, w: Parsed, isNull: bool): (Server, Reply)
    requires Valid(srv) && Commanded(srv, w)
  {
    if SlotIndex(w) >= Priority.SLOTS then (Put(srv, w, w.value), Raised)
    else
      var slots := srv.slots[w.id][SlotIndex(w) := if isNull then None else Some(w.value)];
      (Put(srv, w, Priority.Resolve(slots, srv.defaults[w.id])).(slots := srv.slots[w.id := slots]), Ack)
  }

  function Written(srv: Server, w: Parsed, check: Option<Reply>): (Server, Reply)
    requires Valid(srv)
  {
    match IsNull(w.value)
    case Truncated => (srv, Raised)
    case ValueError => (srv, Raised)
    case Ok(isNull) =>
      if Absorbed(srv, w, isNull) then (srv, Ack)
      else if Refusal(srv, w, check).Some? then (srv, Refusal(srv, w, check).value)
      else if Commanded(srv, w) then Commanding(srv, w, isNull)
      else (Put(srv, w, w.value), Ack)
  }

  // ---- What it keeps ----

  /** The write reaches the priority array at a slot it does not have. */
  predicate PastLastSlot(srv: Server, w: Parsed, check: Option<Reply>) {
    IsNull(w.value).Ok? && Refusal(srv, w, check) == None && Commanded(srv, w) && SlotIndex(w) >= Priority.SLOTS
  }

  /** After any write the served Present_Values agree with the priority arrays, unless the
      write named a slot past the last and stored a value other than the resolved one. */
  lemma WriteKeepsConsistent(srv: Server, w: Parsed, check: Option<Reply>)
    requires Consistent(srv)
    ensures Valid(Written(srv, w, check).0)
    ensures Consistent(Written(srv, w, check).0) <==>
            (PastLastSlot(srv, w, check) ==> w.value == Priority.Resolve(srv.slots[w.id], srv.defaults[w.id]))
  {
    hide ReadTag, Priority.Resolve, Allowed;
    var after := Written(srv, w, check).0;
    if PastLastSlot(srv, w, check) {
      assert after.objects[w.id][PRESENT_VALUE] == w.value;
      assert after.slots == srv.slots;
    }
  }

  /** A server as it starts, with one commandable object. */
  function OneOutput(id: ObjectId, value: Bytes): Server {
    Server(map[id := map[PRESENT_VALUE := value]], Some({id}), None, false,
           map[id := Priority.Empty()], map[id := value])
  }

  lemma OneOutputConsistent(id: ObjectId, value: Bytes)
    ensures Consistent(OneOutput(id, value))
    ensures Priority.Resolve(OneOutput(id, value).slots[id], value) == value
  {
    EmptyResolves(value);
  }

  lemma OneOutputTakes(id: ObjectId, value: Bytes, w: Parsed)
    requires w.id == id && w.property == PRESENT_VALUE && w.priority == Some(17) && IsNull(w.value) == Ok(false)
    ensures PastLastSlot(OneOutput(id, value), w, None)
  {
    hide IsNull;
  }

  /** The failing write, from the octets of a request to a server as it starts: another REAL at
      priority 17 leaves the server raising, and serving a value that its array does not hold. */
  lemma {:induction false} WritePastLastSlotFails(invokeId: byte, id: ObjectId, value: Bytes, other: Bytes)
    requires Encodable(id) && |other| == 5 && other[0] == 0x44 && other != value
    ensures var w := Request(id, PRESENT_VALUE, None, other, Some(17));
            && Consistent(OneOutput(id, value))
            && ParseWritePropertyRequest(WritePropertyRequest(invokeId, w)) == Ok(Some(Wanted(w)))
            && Written(OneOutput(id, value), Wanted(w), None) == (Put(OneOutput(id, value), Wanted(w), other), Raised)
            && !Consistent(Written(OneOutput(id, value), Wanted(w), None).0)
  {
    hide ParseWritePropertyRequest, WritePropertyRequest, Written, IsNull, Balanced, Consistent, PastLastSlot,
         Priority.Resolve, Priority.Empty;
    var w := Request(id, PRESENT_VALUE, None, other, Some(17));
    var srv := OneOutput(id, value);
    RealReads(other);
    WritePropertyRoundTrip(invokeId, w);
    OneOutputConsistent(id, value);
    OneOutputTakes(id, value, Wanted(w));
    ConsistentIsValid(srv);
    PastLastSlotRaises(srv, Wanted(w), None);
    WriteKeepsConsistent(srv, Wanted(w), None);
  }

  lemma ConsistentIsValid(srv: Server)
    requires Consistent(srv)
    ensures Valid(srv)
  {
  }

  lemma EmptyResolves(default_: Bytes)
    ensures Priority.Resolve(Priority.Empty(), default_) == default_
  {
    Priority.ResolveIs(Priority.Empty(), default_, Priority.SLOTS);
  }

  lemma PastLastSlotRaises(srv: Server, w: Parsed, check: Option<Reply>)
    requires Valid(srv) && PastLastSlot(srv, w, check)
    ensures Written(srv, w, check) == (Put(srv, w, w.value), Raised)
  {
    hide ReadTag, Priority.Resolve, Allowed;
  }

  /** An application-tagged REAL is one balanced tag and not NULL. */
  lemma RealReads(value: Bytes)
    requires |value| == 5 && value[0] == 0x44
    ensures Balanced(value, 0) && IsNull(value) == Ok(false)
  {
    assert ReadHead(value) == Ok(Head(4, false, 4, 1));
    assert ReadTag(value).value.size == 5;
    assert value[5..] == [];
  }

  function AsByte(n: nat): byte {
    if n < 256 then n else 0
  }

  /** An accepted command is one step of the priority array, at priority 16 when none is
      given, so its history decides the Present_Value as for the device's own outputs. */
  lemma CommandIsStep(srv: Server, w: Parsed, check: Option<Reply>)
    requires Valid(srv) && Commanded(srv, w) && IsNull(w.value).Ok?
    requires Refusal(srv, w, check) == None && SlotIndex(w) < Priority.SLOTS
    ensures var (after, reply) := Written(srv, w, check);
            var p := AsByte(SlotIndex(w) + 1);
            var op := if IsNull(w.value).value then Priority.Relinquish(p) else Priority.Command(p, w.value);
            && reply == Ack
            && after.slots[w.id] == Priority.Step(srv.slots[w.id], op)
            && after.objects[w.id][PRESENT_VALUE] == Priority.Resolve(after.slots[w.id], srv.defaults[w.id])
            && (forall key :: key in srv.slots && key != w.id ==>
                  key in after.slots && after.slots[key] == srv.slots[key])
  {
    hide ReadTag, Priority.Resolve, Allowed;
  }

  /** A write that is not acknowledged changes nothing, except past the last slot. */
  lemma RefusedChangesNothing(srv: Server, w: Parsed, check: Option<Reply>)
    requires Valid(srv) && (check.Some? ==> check.value.Refused?)
    requires Written(srv, w, check).1 != Ack && !PastLastSlot(srv, w, check)
    ensures Written(srv, w, check).0 == srv
  {
    hide ReadTag, Priority.Resolve;
  }

  // ---- Runs of writes ----

  datatype Attempt = Attempt(write: Parsed, check: Option<Reply>)

  function RunWrites(srv: Server, ws: seq<Attempt>): (r: Server)
    requires Valid(srv)
    ensures Valid(r)
    decreases |ws|
  {
    if ws == [] then srv
    else
      WriteStaysValid(srv, ws[0].write, ws[0].check);
      RunWrites(Written(srv, ws[0].write, ws[0].check).0, ws[1..])
  }

  lemma WriteStaysValid(srv: Server, w: Parsed, check: Option<Reply>)
    requires Valid(srv)
    ensures Valid(Written(srv, w, check).0) && Written(srv, w, check).0.commandable == srv.commandable
  {
    hide ReadTag, Priority.Resolve, Allowed;
  }

  /** The objects whose served Present_Value is not the one their array resolves to. */
  function OutOfStep(srv: Server): set<ObjectId>
    requires Valid(srv)
  {
    if srv.commandable.None? then {}
    else
      set key | key in srv.commandable.value &&
                srv.objects[key][PRESENT_VALUE] != Priority.Resolve(srv.slots[key], srv.defaults[key])
  }

  /** The write reaches the priority array of its object. */
  predicate Reaches(srv: Server, w: Parsed, check: Option<Reply>) {
    IsNull(w.value).Ok? && Refusal(srv, w, check) == None && Commanded(srv, w)
  }

  /** It names no slot of the array and brings another value than the array resolves to. */
  predicate Fails(srv: Server, w: Parsed, check: Option<Reply>)
    requires Valid(srv)
  {
    Reaches(srv, w, check) && SlotIndex(w) >= Priority.SLOTS &&
    w.value != Priority.Resolve(srv.slots[w.id], srv.defaults[w.id])
  }

  /** A failing write puts its object out of step; any other that reaches an array puts its
      object in step again, whatever was served before; no other write matters. */
  function StepOut(srv: Server, out: set<ObjectId>, w: Parsed, check: Option<Reply>): set<ObjectId>
    requires Valid(srv)
  {
    if Fails(srv, w, check) then out + {w.id} else if Reaches(srv, w, check) then out - {w.id} else out
  }

  lemma WriteOutOfStep(srv: Server, w: Parsed, check: Option<Reply>)
    requires Valid(srv)
    ensures Valid(Written(srv, w, check).0)
    ensures OutOfStep(Written(srv, w, check).0) == StepOut(srv, OutOfStep(srv), w, check)
  {
    hide ReadTag, Priority.Resolve, Allowed;
    WriteStaysValid(srv, w, check);
  }

  /** What the writes of a run leave out of step. */
  function RunOut(srv: Server, out: set<ObjectId>, ws: seq<Attempt>): set<ObjectId>
    requires Valid(srv)
    decreases |ws|
  {
    if ws == [] then out
    else
      WriteStaysValid(srv, ws[0].write, ws[0].check);
      RunOut(Written(srv, ws[0].write, ws[0].check).0, StepOut(srv, out, ws[0].write, ws[0].check), ws[1..])
  }

  /** No write of the run fails. */
  predicate NoneFails(srv: Server, ws: seq<Attempt>)
    requires Valid(srv)
    decreases |ws|
  {
    ws == [] ||
    (WriteStaysValid(srv, ws[0].write, ws[0].check);
     !Fails(srv, ws[0].write, ws[0].check) && NoneFails(Written(srv, ws[0].write, ws[0].check).0, ws[1..]))
  }

  /** Over every run of writes, at any priorities, accepted, refused or absorbed: the objects out
      of step are exactly those whose last write to reach their array failed. So a consistent
      server stays so if no write fails, and is so at the end if and only if every failing write
      was made good by a later one. */
  lemma {:induction false} RunKeepsConsistent(srv: Server, ws: seq<Attempt>)
    requires Valid(srv)
    ensures OutOfStep(RunWrites(srv, ws)) == RunOut(srv, OutOfStep(srv), ws)
    ensures Consistent(RunWrites(srv, ws)) <==> RunOut(srv, OutOfStep(srv), ws) == {}
    ensures Consistent(srv) && NoneFails(srv, ws) ==> Consistent(RunWrites(srv, ws))
    decreases |ws|
  {
    hide Written, Reaches, Fails, Priority.Resolve, Valid;
    if ws != [] {
      var w, check := ws[0].write, ws[0].check;
      WriteStaysValid(srv, w, check);
      WriteOutOfStep(srv, w, check);
      RunKeepsConsistent(Written(srv, w, check).0, ws[1..]);
      InStepIsConsistent(Written(srv, w, check).0);
    }
    InStepIsConsistent(srv);
  }

  lemma InStepIsConsistent(srv: Server)
    requires Valid(srv)
    ensures Consistent(srv) <==> OutOfStep(srv) == {}
  {
    hide Priority.Resolve;
    if OutOfStep(srv) == {} && srv.commandable.Some? {
      forall key | key in srv.commandable.value
        ensures srv.objects[key][PRESENT_VALUE] == Priority.Resolve(srv.slots[key], srv.defaults[key])
      {
        assert key !in OutOfStep(srv);
      }
    }
  }

  lemma PutTwice(objects: map<ObjectId, map<nat, Bytes>>, id: ObjectId, property: nat, first: Bytes, second: Bytes)
    requires id in objects
    ensures var once := objects[id := Updated(objects[id], property, first)];
            once[id := Updated(once[id], property, second)] == objects[id := Updated(objects[id], property, second)]
  {
    var once := objects[id := Updated(objects[id], property, first)];
    assert Updated(once[id], property, second) == Updated(objects[id], property, second);
  }

  /** The server as it is held: dictionaries updated in place. */
  class SimulatedServer {
    var objects: map<ObjectId, map<nat, Bytes>>
    const commandable: Option<set<ObjectId>>
    const writable: Option<set<(ObjectId, nat)>>
    var refusing: bool
    var priorityArrays: map<ObjectId, Priority.Slots<Bytes>>
    const relinquishDefaults: map<ObjectId, Bytes>

    ghost function State(): Server
      reads this
    {
      Server(objects, commandable, writable, refusing, priorityArrays, relinquishDefaults)
    }

    constructor (objects: map<ObjectId, map<nat, Bytes>>, writable: Option<set<(ObjectId, nat)>>,
                 commandable: Option<set<ObjectId>>)
      requires commandable.Some? ==>
                 forall key :: key in commandable.value ==> key in objects && PRESENT_VALUE in objects[key]
      ensures Consistent(State())
      ensures this.objects == objects && this.writable == writable && this.commandable == commandable && !refusing
    {
      this.objects, this.writable, this.commandable, refusing := objects, writable, commandable, false;
      var keys := if commandable.Some? then commandable.value else {};
      priorityArrays := map key | key in keys :: Priority.Empty();
      relinquishDefaults := map key | key in keys :: objects[key][PRESENT_VALUE];
      new;
      forall key | commandable.Some? && key in commandable.value
        ensures objects[key][PRESENT_VALUE] == Priority.Resolve(priorityArrays[key], relinquishDefaults[key])
      {
        Priority.ResolveIs(priorityArrays[key], relinquishDefaults[key], Priority.SLOTS);
      }
    }

    /** The first slot that is not None, or the default. */
    static method Winning(slots: Priority.Slots<Bytes>, default_: Bytes) returns (value: Bytes)
      ensures value == Priority.Resolve(slots, default_)
    {
      var winning: seq<Bytes> := [];
      assert slots[0..] == slots;
      for i := 0 to |slots|
        invariant winning == [] ==> Priority.Resolve(slots[i..], default_) == Priority.Resolve(slots, default_)
        invariant winning != [] ==> winning[0] == Priority.Resolve(slots, default_)
      {
        assert slots[i..][1..] == slots[i + 1..];
        if slots[i].Some? {
          winning := winning + [slots[i].value];
        }
      }
      return if winning != [] then winning[0] else default_;
    }

    method Write(w: Parsed, check: Option<Reply>) returns (reply: Reply)
      requires Valid(State())
      modifies this
      ensures Valid(State())
      ensures (State(), reply) == Written(old(State()), w, check)
    {
      hide ReadTag, Priority.Resolve;
      var isNull := IsNull(w.value);
      if !isNull.Ok? { return Raised; }
      var commanded := commandable.Some? && w.id in commandable.value && w.property == PRESENT_VALUE;
      if commandable.Some? && isNull.value && !commanded && !refusing
         && w.id in objects && w.property in objects[w.id] {
        return Ack;
      }
      if w.id !in objects { return Refused(OBJECT_CLASS, UNKNOWN_OBJECT); }
      var allowed := if writable.None? then w.property in objects[w.id] else (w.id, w.property) in writable.value;
      if refusing || !allowed { return Refused(PROPERTY_CLASS, WRITE_ACCESS_DENIED); }
      if check.Some? { return check.value; }
      objects := objects[w.id := Updated(objects[w.id], w.property, w.value)];
      if commanded {
        var index := SlotIndex(w);
        if index >= Priority.SLOTS { return Raised; }
        var slots := priorityArrays[w.id][index := if isNull.value then None else Some(w.value)];
        priorityArrays := priorityArrays[w.id := slots];
        var value := Winning(slots, relinquishDefaults[w.id]);
        PutTwice(old(objects), w.id, w.property, w.value, value);
        objects := objects[w.id := Updated(objects[w.id], w.property, value)];
      }
      return Ack;
    }
  }

  // ---- NULL ----

  /** The octets behind the first one that a length of five announces are there. */
  predicate LengthThere(value: Bytes, at: nat)
    requires value != []
  {
    value[0] % 8 == 5 ==>
      |value| > at && (value[at] == 254 ==> |value| >= at + 3) && (value[at] == 255 ==> |value| >= at + 5)
  }

  /** Application tag 0, in the first octet or as an extended tag number. */
  predicate SpellsNull(value: Bytes) {
    value != [] &&
    ((value[0] < 8 && LengthThere(value, 1)) ||
     (0xF0 <= value[0] < 0xF8 && |value| >= 2 && value[1] == 0 && LengthThere(value, 2)))
  }

  /** A value is taken for NULL exactly when it starts with application tag 0. */
  lemma {:induction false} NullExactly(value: Bytes)
    ensures IsNull(value) == Ok(true) <==> SpellsNull(value)
    ensures IsNull([0x00]) == Ok(true)
  {
    hide BigEndian;
    assert !Bit(0x00, 8);
    if value != [] {
      FirstOctet(value[0]);
    }
  }

  lemma FirstOctet(b: byte)
    ensures b < 8 <==> b / 16 == 0 && !Bit(b, 8)
    ensures 0xF0 <= b < 0xF8 <==> b / 16 == 15 && !Bit(b, 8)
  {
  }

  lemma {:induction false} NullBalanced()
    ensures Balanced([0x00], 0)
  {
    assert ReadHead([0x00]) == Ok(Head(0, false, 0, 1));
    assert [0x00][1..] == [];
  }

  function NullRequest(id: ObjectId, property: Unsigned32, priority: Option<Unsigned32>): Request {
    Request(id, property, None, [0x00], priority)
  }

  /** A NULL at slot `k` clears that slot of the array, leaves the others, and serves what they
      resolve to. */
  predicate Relinquished(srv: Server, after: Server, id: ObjectId, k: nat)
    requires Valid(srv) && srv.commandable.Some? && id in srv.commandable.value && k < Priority.SLOTS
  {
    && id in after.slots && after.slots[id] == srv.slots[id][k := None]
    && id in after.objects && PRESENT_VALUE in after.objects[id]
    && after.objects[id][PRESENT_VALUE] == Priority.Resolve(after.slots[id], srv.defaults[id])
    && (forall key :: key in srv.objects && key != id ==>
          key in after.objects && after.objects[key] == srv.objects[key])
  }

  lemma {:induction false} NullClears(srv: Server, w: Parsed)
    requires Valid(srv) && Commanded(srv, w) && IsNull(w.value) == Ok(true) && Refusal(srv, w, None) == None
    requires SlotIndex(w) < Priority.SLOTS
    ensures Written(srv, w, None).1 == Ack && Relinquished(srv, Written(srv, w, None).0, w.id, SlotIndex(w))
  {
    hide IsNull, Priority.Resolve, Refusal;
  }

  /** From the octets of a request: a NULL at priority `p`, or at 16 when there is none,
      relinquishes exactly that slot. */
  lemma {:induction false} NullRelinquishes(srv: Server, invokeId: byte, id: ObjectId, priority: Option<Unsigned32>)
    requires Valid(srv) && Encodable(id) && srv.commandable.Some? && id in srv.commandable.value
    requires !srv.refusing && (srv.writable.Some? ==> (id, PRESENT_VALUE) in srv.writable.value)
    requires priority.Some? ==> 1 <= priority.value <= 16
    ensures var w := NullRequest(id, 85, priority);
            && ParseWritePropertyRequest(WritePropertyRequest(invokeId, w)) == Ok(Some(Wanted(w)))
            && var (after, reply) := Written(srv, Wanted(w), None);
               reply == Ack && Relinquished(srv, after, id, if priority.Some? then priority.value - 1 else 15)
  {
    hide ParseWritePropertyRequest, WritePropertyRequest, IsNull, Balanced, Written, Relinquished, Encodable;
    var w := NullRequest(id, PRESENT_VALUE, priority);
    NullBalanced();
    NullExactly([0x00]);
    WritePropertyRoundTrip(invokeId, w);
    NullClears(srv, Wanted(w));
  }

  /** A NULL to a property the server lists but does not command is acknowledged and changes
      nothing, whatever the priority. */
  lemma {:induction false} NullAbsorbed(srv: Server, invokeId: byte, id: ObjectId, property: Unsigned32,
                                        priority: Option<Unsigned32>, check: Option<Reply>)
    requires Valid(srv) && Encodable(id) && srv.commandable.Some? && !srv.refusing
    requires id in srv.objects && property in srv.objects[id]
    requires id !in srv.commandable.value || property != PRESENT_VALUE
    ensures var w := NullRequest(id, property, priority);
            && ParseWritePropertyRequest(WritePropertyRequest(invokeId, w)) == Ok(Some(Wanted(w)))
            && Written(srv, Wanted(w), check) == (srv, Ack)
  {
    hide ParseWritePropertyRequest, WritePropertyRequest, IsNull, Balanced, Priority.Resolve;
    NullBalanced();
    NullExactly([0x00]);
    WritePropertyRoundTrip(invokeId, NullRequest(id, property, priority));
  }

  /** Without commandable objects a NULL is a value like any other. */
  lemma {:induction false} NullStored(srv: Server, w: Parsed)
    requires Valid(srv) && srv.commandable.None? && IsNull(w.value) == Ok(true) && Refusal(srv, w, None) == None
    ensures Written(srv, w, None).1 == Ack
    ensures Written(srv, w, None).0.objects[w.id] == srv.objects[w.id][w.property := w.value]
  {
    hide IsNull, Priority.Resolve;
  }

  // ---- Replies ----

  /** The property is on the list of those that may be written, whether or not the object has it yet;
      without such a list it is one the object has. */
  predicate Open(srv: Server, w: Parsed) {
    match srv.writable
    case Some(list) => (w.id, w.property) in list
    case None => w.id in srv.objects && w.property in srv.objects[w.id]
  }

  /** What a write that is not a NULL is answered with: unknown object, write access denied, the
      test's own refusal, or an acknowledgment; and which value is then served. */
  lemma {:induction false} ReplyIs(srv: Server, w: Parsed, check: Option<Reply>)
    requires Valid(srv) && IsNull(w.value) == Ok(false)
    ensures var (after, reply) := Written(srv, w, check);
            && (w.id !in srv.objects ==> reply == Refused(1, 31))
            && (w.id in srv.objects && srv.refusing ==> reply == Refused(2, 40))
            && (w.id in srv.objects && srv.writable.Some? && (w.id, w.property) !in srv.writable.value ==>
                  reply == Refused(2, 40))
            && (w.id in srv.objects && srv.writable.None? && w.property !in srv.objects[w.id] ==>
                  reply == Refused(2, 40))
            && (w.id in srv.objects && !srv.refusing && check.Some? && Open(srv, w) ==> reply == check.value)
            && (w.id in srv.objects && !srv.refusing && check.None? && Open(srv, w) && !Commanded(srv, w) ==>
                  && reply == Ack && after.objects[w.id] == srv.objects[w.id][w.property := w.value]
                  && after.slots == srv.slots)
  {
    hide IsNull, Priority.Resolve;
  }

  /** A refusing server, and one that does not list the property, absorb no NULL either. */
  lemma {:induction false} NullRefused(srv: Server, w: Parsed, check: Option<Reply>)
    requires Valid(srv) && IsNull(w.value) == Ok(true)
    ensures w.id !in srv.objects ==> Written(srv, w, check) == (srv, Refused(1, 31))
    ensures w.id in srv.objects && srv.refusing ==> Written(srv, w, check) == (srv, Refused(2, 40))
  {
    hide IsNull, Priority.Resolve;
  }

  /** Without a priority, or with 0, a command takes slot 16. */
  lemma DefaultSlot(w: Parsed)
    ensures w.priority.None? || w.priority == Some(0) ==> SlotIndex(w) == 15
    ensures w.priority.Some? && w.priority.value > 0 ==> SlotIndex(w) == w.priority.value - 1
  {
  }
}
