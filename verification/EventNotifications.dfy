/** Event notifications (clauses 13.8 and 13.9): an out-of-range alarm as a peer sends it,
    and the decoder that reads its top-level fields and skips what is nested. */
module EventNotifications {
  import opened Octets
  import opened Tags
  import opened PropertyServices

  const CONFIRMED_SERVICE: byte := 2
  const UNCONFIRMED_SERVICE: byte := 3
  const DEVICE_TYPE := 8
  const OUT_OF_RANGE: Unsigned32 := 5
  const ACK_NOTIFICATION: Unsigned32 := 2
  const NORMAL: Unsigned32 := 0

  /** Dates, times and REALs are given as their four octets. */
  type Four = b: Bytes | |b| == 4 witness [0, 0, 0, 0]

  datatype Notification = Notification(
    process: Unsigned32,
    device: nat,
    object_: ObjectId,
    date: Four,
    time: Four,
    class_: Unsigned32,
    priority: Unsigned32,
    text: Option<Bytes>,
    notifyType: Unsigned32,
    ackRequired: bool,
    fromState: Unsigned32,
    toState: Unsigned32,
    exceeding: Four,
    limit: Four)

  /** What the encoder accepts: identifiers fit their tags, and the text with its character set
      octet is counted in one octet. */
  predicate WellFormed(n: Notification) {
    n.device < 0x400000 && Encodable(n.object_) && (n.text.Some? ==> |n.text.value| <= 254)
  }

  // ---- Encoding ----

  /** A date and a time inside the dateTime choice of a time stamp. */
  function StampOctets(date: Four, time: Four): Bytes {
    Opening(2) + ([0xA4] + date + ([0xB4] + time + Closing(2)))
  }

  function FlagOctets(inAlarm: bool): Bytes {
    [4, if inAlarm then 0x80 else 0]
  }

  /** Exceeding value, status flags, a deadband of 1.0 and the exceeded limit. */
  function EventValues(n: Notification): Bytes {
    Opening(5) + (Context(0, n.exceeding) + (Context(1, FlagOctets(n.toState != NORMAL)) +
    (Context(2, [0x3F, 0x80, 0, 0]) + (Context(3, n.limit) + Closing(5)))))
  }

  /** What follows the notify type. */
  function StateOctets(n: Notification): Bytes {
    if n.notifyType == ACK_NOTIFICATION then ContextUnsigned(11, n.toState)
    else
      Context(9, [if n.ackRequired then 1 else 0]) + (ContextUnsigned(10, n.fromState) +
      (ContextUnsigned(11, n.toState) + (Opening(12) + EventValues(n) + Closing(12))))
  }

  /** The notify type and what follows it. */
  function AfterTextOctets(n: Notification): Bytes {
    ContextUnsigned(8, n.notifyType) + StateOctets(n)
  }

  function Parameters(n: Notification): Bytes
    requires WellFormed(n)
  {
    ContextUnsigned(0, n.process) +
    (ContextObjectId(1, ObjectId(DEVICE_TYPE, n.device)) +
    (ContextObjectId(2, n.object_) +
    (Opening(3) + (StampOctets(n.date, n.time) + (Closing(3) +
    (ContextUnsigned(4, n.class_) +
    (ContextUnsigned(5, n.priority) +
    (ContextUnsigned(6, OUT_OF_RANGE) +
    (OptionalText(7, n.text) +
    AfterTextOctets(n))))))))))
  }

  function Apdu(n: Notification, confirmed: Option<byte>): Bytes
    requires WellFormed(n)
  {
    match confirmed
    case Some(invokeId) => ConfirmedRequest(invokeId, CONFIRMED_SERVICE, Parameters(n))
    case None => [0x10, UNCONFIRMED_SERVICE] + Parameters(n)
  }

  // ---- Decoding ----

  datatype Fields = Fields(
    process: Option<nat>,
    device: Option<ObjectId>,
    object_: Option<ObjectId>,
    timeStamp: Option<(Bytes, Bytes)>,
    class_: Option<nat>,
    priority: Option<nat>,
    eventType: Option<nat>,
    notifyType: Option<nat>,
    ackRequired: Option<bool>,
    fromState: Option<nat>,
    toState: Option<nat>)

  function Unset(): Fields {
    Fields(None, None, None, None, None, None, None, None, None, None, None)
  }

  /** A top-level context primitive sets the field its tag numbers. */
  function Assign(f: Fields, number: nat, body: Bytes): Result<Fields> {
    var v := Some(BigEndian(body));
    if number == 0 then Ok(f.(process := v))
    else if number == 1 then
      var id :- Unpacked(body);
      Ok(f.(device := Some(id)))
    else if number == 2 then
      var id :- Unpacked(body);
      Ok(f.(object_ := Some(id)))
    else if number == 4 then Ok(f.(class_ := v))
    else if number == 5 then Ok(f.(priority := v))
    else if number == 6 then Ok(f.(eventType := v))
    else if number == 8 then Ok(f.(notifyType := v))
    else if number == 9 then Ok(f.(ackRequired := Some(v.value != 0)))
    else if number == 10 then Ok(f.(fromState := v))
    else if number == 11 then Ok(f.(toState := v))
    else Ok(f)
  }

  function Skip(s: Bytes): Result<Bytes> {
    var (length, end) :- FindClose(s, 1);
    Ok(Drop(s, end))
  }

  /** A time stamp choice: the octets of a dateTime, None for the other forms. */
  function ReadStamp(s: Bytes): Result<(Option<(Bytes, Bytes)>, Bytes)> {
    var choice :- ReadTag(s);
    var inner := Drop(s, choice.size);
    if choice.kind == Open && choice.number == 2 then
      var date :- ReadTag(inner);
      var afterDate := Drop(inner, date.size);
      var time :- ReadTag(afterDate);
      var afterTime := Drop(afterDate, time.size);
      var close :- ReadTag(afterTime);
      Ok((Some((date.body, time.body)), Drop(afterTime, close.size)))
    else if choice.kind == Open then
      var rest :- Skip(inner);
      Ok((None, rest))
    else Ok((None, inner))
  }

  /** The time stamp inside an outer [3], just after its opening tag. */
  function ReadStampField(s: Bytes): Result<(Option<(Bytes, Bytes)>, Bytes)> {
    var (stamp, rest) :- ReadStamp(s);
    var close :- ReadTag(rest);
    Ok((stamp, Drop(rest, close.size)))
  }

  lemma {:induction false} SkipShrinks(s: Bytes)
    ensures Skip(s).Ok? ==> |Skip(s).value| <= |s|
    ensures ReadStampField(s).Ok? ==> |ReadStampField(s).value.1| <= |s|
  {
    hide ReadTag;
  }

  function ParseFields(s: Bytes, f: Fields): Result<Fields>
    decreases |s|
  {
    if s == [] then Ok(f)
    else
      var tag :- ReadTag(s);
      var rest := Drop(s, tag.size);
      SkipShrinks(rest);
      if tag.kind == Open && tag.number == 3 then
        var (stamp, after) :- ReadStampField(rest);
        ParseFields(after, f.(timeStamp := stamp))
      else if tag.kind == Open then
        var after :- Skip(rest);
        ParseFields(after, f)
      else if tag.kind == Value && tag.isContext then
        var updated :- Assign(f, tag.number, tag.body);
        ParseFields(rest, updated)
      else ParseFields(rest, f)
  }

  /** Confirmed or not, the invoke id of a confirmed one, and the fields. */
  function Decode(payload: Bytes): Result<(bool, Option<byte>, Fields)> {
    var confirmed := payload != [] && payload[0] / 16 == 0;
    var fields :- ParseFields(Drop(payload, if confirmed then 4 else 2), Unset());
    Ok((confirmed, if confirmed && |payload| > 2 then Some(payload[2]) else None, fields))
  }

  // ---- Round trip ----

  function Expected(n: Notification): Fields {
    var alarm := n.notifyType != ACK_NOTIFICATION;
    Fields(Some(n.process), Some(ObjectId(DEVICE_TYPE, n.device)), Some(n.object_), Some((n.date, n.time)),
           Some(n.class_), Some(n.priority), Some(OUT_OF_RANGE), Some(n.notifyType),
           if alarm then Some(n.ackRequired) else None,
           if alarm then Some(n.fromState) else None,
           Some(n.toState))
  }

  lemma {:induction false} FieldStep(tag: TagNumber, body: Bytes, rest: Bytes, f: Fields, updated: Fields)
    requires |body| <= 4 && Assign(f, tag, body) == Ok(updated)
    ensures ParseFields(Context(tag, body) + rest, f) == ParseFields(rest, updated)
  {
    hide ReadTag, Assign, Skip, ReadStampField;
    ReadContext(tag, body, rest);
  }

  lemma {:induction false} NumberStep(tag: TagNumber, v: Unsigned32, rest: Bytes, f: Fields, updated: Fields)
    requires tag != 1 && tag != 2 && Assign(f, tag, UnsignedOctets(v)) == Ok(updated)
    ensures ParseFields(ContextUnsigned(tag, v) + rest, f) == ParseFields(rest, updated)
  {
    hide ParseFields, Assign, Context;
    FieldStep(tag, UnsignedOctets(v), rest, f, updated);
  }

  lemma {:induction false} IdStep(tag: TagNumber, id: ObjectId, rest: Bytes, f: Fields)
    requires Encodable(id) && (tag == 1 || tag == 2)
    ensures ParseFields(ContextObjectId(tag, id) + rest, f) ==
            ParseFields(rest, if tag == 1 then f.(device := Some(id)) else f.(object_ := Some(id)))
  {
    hide ParseFields, Context, UnpackObjectId;
    ObjectIdRoundTrip(id);
    FieldStep(tag, ObjectIdOctets(id), rest, f, if tag == 1 then f.(device := Some(id)) else f.(object_ := Some(id)));
  }

  lemma {:induction false} IgnoredStep(s: Bytes, rest: Bytes, tag: Tag, f: Fields)
    requires s != [] && ReadTag(s) == Ok(tag) && Drop(s, tag.size) == rest
    requires tag.isContext && tag.kind == Value && tag.number == 7
    ensures ParseFields(s, f) == ParseFields(rest, f)
  {
    hide ReadTag, Drop, Skip, ReadStampField;
  }

  /** The text sets no field; reading goes on where its tag is taken to end. */
  lemma {:induction false} TextStep(text: Option<Bytes>, rest: Bytes, f: Fields)
    requires text.Some? ==> |text.value| <= 254
    ensures ParseFields(OptionalText(7, text) + rest, f) == ParseFields(AfterText(text, rest), f)
  {
    hide ReadTag, ParseFields, OptionalText, AfterText, TextRead;
    if text.Some? {
      ReadText(7, text.value, rest);
      var s := OptionalText(7, text) + rest;
      IgnoredStep(s, AfterText(text, rest), ReadTag(s).value, f);
    } else {
      NoTextAfter(rest);
    }
  }

  lemma NoTextAfter(rest: Bytes)
    ensures AfterText(None, rest) == rest && OptionalText(7, None) + rest == rest
  {
  }

  /** A constructed field other than [3] is passed over, whatever balanced octets it holds. */
  lemma SkipStep(tag: TagNumber, inner: Bytes, rest: Bytes, f: Fields)
    requires tag != 3 && Balanced(inner, 0)
    ensures ParseFields(Opening(tag) + inner + Closing(tag) + rest, f) == ParseFields(rest, f)
  {
    hide ReadTag, FindClose, Balanced, ReadStampField, Assign, Opening, Closing;
    var tail := Closing(tag) + rest;
    Regroup4(Opening(tag), inner, Closing(tag), rest);
    ReadOpening(tag, inner + tail);
    ReadClosing(tag, rest);
    CloseIsFound(inner, 0, tail);
    DropInside(inner, tail, |inner|);
    DropDrop(inner + tail, |inner|, 1);
  }

  lemma ReadApplication4(number: byte, body: Bytes, rest: Bytes)
    requires number == 10 || number == 11
    requires |body| == 4
    ensures ReadTag([number * 16 + 4] + body + rest) == Ok(Tag(number, false, Value, body, 5))
    ensures Drop([number * 16 + 4] + body + rest, 5) == rest
  {
    hide ReadTag;
    ReadApplication(number, body, rest);
  }

  lemma {:induction false} StampReads(date: Four, time: Four, rest: Bytes)
    ensures ReadStampField(StampOctets(date, time) + (Closing(3) + rest)) == Ok((Some((date, time)), rest))
  {
    hide ReadTag, Closing, Opening;
    var after := Closing(3) + rest;
    var afterTime := Closing(2) + after;
    var afterDate := [0xB4] + time + afterTime;
    var inner := [0xA4] + date + afterDate;
    Regroup4(Opening(2), [0xA4] + date, [0xB4] + time + Closing(2), after);
    Regroup3(Opening(2), [0xA4] + date, [0xB4] + time + Closing(2));
    Regroup3([0xB4] + time, Closing(2), after);
    assert StampOctets(date, time) + after == Opening(2) + inner;
    ReadOpening(2, inner);
    ReadApplication4(10, date, afterDate);
    ReadApplication4(11, time, afterTime);
    ReadClosing(2, after);
    ReadClosing(3, rest);
  }

  lemma {:induction false} StampStep(date: Four, time: Four, rest: Bytes, f: Fields)
    ensures ParseFields(Opening(3) + (StampOctets(date, time) + (Closing(3) + rest)), f) ==
            ParseFields(rest, f.(timeStamp := Some((date, time))))
  {
    hide ReadTag, Skip, ReadStampField, StampOctets, Opening, Closing, Assign;
    var inside := StampOctets(date, time) + (Closing(3) + rest);
    ReadOpening(3, inside);
    StampReads(date, time, rest);
  }

  lemma {:induction false} BalancedContext(tag: TagNumber, body: Bytes, rest: Bytes, depth: nat)
    requires |body| <= 4 && Balanced(rest, depth)
    ensures Balanced(Context(tag, body) + rest, depth)
  {
    hide ReadTag;
    ReadContext(tag, body, rest);
  }

  lemma {:induction false} EventValuesBalanced(n: Notification)
    ensures Balanced(EventValues(n), 0)
  {
    hide ReadTag, Context, Opening, Closing;
    var close := Closing(5);
    ReadClosing(5, []);
    assert close + [] == close;
    assert Balanced([], 0);
    var d := Context(3, n.limit) + close;
    var c := Context(2, [0x3F, 0x80, 0, 0]) + d;
    var b := Context(1, FlagOctets(n.toState != NORMAL)) + c;
    var a := Context(0, n.exceeding) + b;
    CloseBalanced(5);
    BalancedContext(3, n.limit, close, 1);
    BalancedContext(2, [0x3F, 0x80, 0, 0], d, 1);
    BalancedContext(1, FlagOctets(n.toState != NORMAL), c, 1);
    BalancedContext(0, n.exceeding, b, 1);
    OpenBalanced(5, a);
  }

  lemma CloseBalanced(tag: TagNumber)
    ensures Balanced(Closing(tag), 1)
  {
    hide ReadTag;
    assert Closing(tag) + [] == Closing(tag);
    ReadClosing(tag, []);
  }

  lemma OpenBalanced(tag: TagNumber, rest: Bytes)
    requires Balanced(rest, 1)
    ensures Balanced(Opening(tag) + rest, 0)
  {
    hide ReadTag;
    ReadOpening(tag, rest);
  }

  lemma FlagField(v: bool)
    ensures (BigEndian([if v then 1 else 0]) != 0) == v
  {
    BigEndianSmall([if v then 1 else 0]);
  }

  lemma {:induction false} StateStep(n: Notification, f: Fields)
    ensures ParseFields(StateOctets(n), f) ==
            Ok(if n.notifyType == ACK_NOTIFICATION then f.(toState := Some(n.toState))
               else f.(ackRequired := Some(n.ackRequired), fromState := Some(n.fromState), toState := Some(n.toState)))
  {
    hide ReadTag, ParseFields, Context, EventValues, Opening, Closing, Balanced, BigEndian;
    FieldsEnd(f);
    if n.notifyType == ACK_NOTIFICATION {
      var f1 := f.(toState := Some(n.toState));
      assert ContextUnsigned(11, n.toState) + [] == ContextUnsigned(11, n.toState);
      NumberStep(11, n.toState, [], f, f1);
      FieldsEnd(f1);
    } else {
      var flag := [if n.ackRequired then 1 else 0];
      var values := Opening(12) + EventValues(n) + Closing(12);
      var f1 := f.(ackRequired := Some(n.ackRequired));
      var f2 := f1.(fromState := Some(n.fromState));
      var f3 := f2.(toState := Some(n.toState));
      FlagField(n.ackRequired);
      FieldStep(9, flag, ContextUnsigned(10, n.fromState) + (ContextUnsigned(11, n.toState) + values), f, f1);
      NumberStep(10, n.fromState, ContextUnsigned(11, n.toState) + values, f1, f2);
      NumberStep(11, n.toState, values, f2, f3);
      EventValuesBalanced(n);
      SkipStep(12, EventValues(n), [], f3);
      assert values + [] == values;
      FieldsEnd(f3);
    }
  }

  lemma FieldsEnd(f: Fields)
    ensures ParseFields([], f) == Ok(f)
  {
  }

  /** The fields that come before the text. */
  function BeforeText(n: Notification): Fields {
    Fields(Some(n.process), Some(ObjectId(DEVICE_TYPE, n.device)), Some(n.object_), Some((n.date, n.time)),
           Some(n.class_), Some(n.priority), Some(OUT_OF_RANGE), None, None, None, None)
  }

  /** For every notification the encoder can build: the fields before the text are read as they
      were given, and the rest from where the text is taken to end. */
  lemma {:induction false} ParametersParse(n: Notification)
    requires WellFormed(n)
    ensures ParseFields(Parameters(n), Unset()) == ParseFields(AfterText(n.text, AfterTextOctets(n)), BeforeText(n))
  {
    hide ReadTag, ParseFields, Context, Opening, Closing, BigEndian, StampOctets, OptionalText, AfterTextOctets,
         AfterText;
    var s8 := AfterTextOctets(n);
    var s7 := OptionalText(7, n.text) + s8;
    var s6 := ContextUnsigned(6, OUT_OF_RANGE) + s7;
    var s5 := ContextUnsigned(5, n.priority) + s6;
    var s4 := ContextUnsigned(4, n.class_) + s5;
    var s3 := Opening(3) + (StampOctets(n.date, n.time) + (Closing(3) + s4));
    var s2 := ContextObjectId(2, n.object_) + s3;
    var s1 := ContextObjectId(1, ObjectId(DEVICE_TYPE, n.device)) + s2;
    var f0 := Unset().(process := Some(n.process));
    NumberStep(0, n.process, s1, Unset(), f0);
    IdStep(1, ObjectId(DEVICE_TYPE, n.device), s2, f0);
    var f1 := f0.(device := Some(ObjectId(DEVICE_TYPE, n.device)));
    IdStep(2, n.object_, s3, f1);
    var f2 := f1.(object_ := Some(n.object_));
    StampStep(n.date, n.time, s4, f2);
    var f3 := f2.(timeStamp := Some((n.date, n.time)));
    var f4 := f3.(class_ := Some(n.class_));
    NumberStep(4, n.class_, s5, f3, f4);
    var f5 := f4.(priority := Some(n.priority));
    NumberStep(5, n.priority, s6, f4, f5);
    NumberStep(6, OUT_OF_RANGE, s7, f5, BeforeText(n));
    TextStep(n.text, s8, BeforeText(n));
  }

  lemma {:induction false} AfterTextParses(n: Notification)
    ensures ParseFields(AfterTextOctets(n), BeforeText(n)) == Ok(Expected(n))
  {
    hide ParseFields, ContextUnsigned, StateOctets;
    var f := BeforeText(n).(notifyType := Some(n.notifyType));
    NumberStep(8, n.notifyType, StateOctets(n), BeforeText(n), f);
    StateStep(n, f);
  }

  lemma EventValuesLength(n: Notification)
    ensures |EventValues(n)| == 20
  {
  }

  lemma AfterTextLength(n: Notification)
    ensures |AfterTextOctets(n)| <= 39
  {
    hide EventValues, UnsignedOctets;
    EventValuesLength(n);
  }

  /** Four octets that start with zero and a nonzero octet announce more than any notification. */
  lemma {:induction false} LongTextSwallowsRest(n: Notification)
    requires WellFormed(n) && n.text.Some? && |n.text.value| == 254 && n.text.value[0] != 0
    ensures AfterText(n.text, AfterTextOctets(n)) == []
  {
    hide AfterTextOctets, BigEndian;
    var body := [0] + n.text.value;
    BigEndianSmall(body[..4]);
    AfterTextLength(n);
    assert BigEndian(body[..4]) >= 0x10000;
  }

  function WithFields(confirmed: Option<byte>, r: Result<Fields>): Result<(bool, Option<byte>, Fields)> {
    match r
    case Ok(f) => Ok((confirmed.Some?, confirmed, f))
    case Truncated => Truncated
    case ValueError => ValueError
  }

  lemma {:induction false} ApduDecodes(n: Notification, confirmed: Option<byte>)
    requires WellFormed(n)
    ensures Decode(Apdu(n, confirmed)) == WithFields(confirmed, ParseFields(Parameters(n), Unset()))
  {
    hide ParseFields, Parameters;
    match confirmed
    case Some(invokeId) =>
      DropPrefix([0x00, 0x05, invokeId, CONFIRMED_SERVICE], Parameters(n));
    case None =>
      DropPrefix([0x10, UNCONFIRMED_SERVICE], Parameters(n));
  }

  /** Every notification the encoder accepts is decoded to the fields before its text and to what
      is read from where the text is taken to end. With a text of at most 252 octets or none,
      confirmed or not, alarm or acknowledgment, these are the identifiers, states and time stamp
      it was built with. With a text of 254 octets that does not start with NUL, notify type and
      states are always lost. */
  lemma {:induction false} NotificationRoundTrip(n: Notification, confirmed: Option<byte>)
    requires WellFormed(n)
    ensures Decode(Apdu(n, confirmed)) ==
            WithFields(confirmed, ParseFields(AfterText(n.text, AfterTextOctets(n)), BeforeText(n)))
    ensures ShortText(n.text) ==> Decode(Apdu(n, confirmed)) == Ok((confirmed.Some?, confirmed, Expected(n)))
    ensures n.text.Some? && |n.text.value| == 254 && n.text.value[0] != 0 ==>
              Decode(Apdu(n, confirmed)) == Ok((confirmed.Some?, confirmed, BeforeText(n)))
  {
    hide ParseFields, Parameters, AfterTextOctets, Decode, Apdu, MisreadOf;
    ApduDecodes(n, confirmed);
    ParametersParse(n);
    if ShortText(n.text) {
      AfterTextParses(n);
    } else if |n.text.value| == 254 && n.text.value[0] != 0 {
      LongTextSwallowsRest(n);
      FieldsEnd(BeforeText(n));
    }
  }

  /** `_skip_constructed`: the position after the matching closing tag. */
  method SkipConstructed(octets: Bytes, position: nat) returns (r: Result<nat>)
    ensures match Skip(Drop(octets, position))
            case Ok(rest) => r.Ok? && r.value > position && Drop(octets, r.value) == rest
            case Truncated => r == Truncated
            case ValueError => r == ValueError
  {
    hide FindClose, Drop, Take;
    var body := ConstructedBody(octets, position);
    if body.IsFailure() { return body.PropagateFailure(); }
    DropDrop(octets, position, body.value.1 - position);
    return Ok(body.value.1);
  }

  /** `read_time_stamp_choice` */
  method ReadStampAt(octets: Bytes, position: nat) returns (r: Result<Option<(Bytes, Bytes)>>, after: nat)
    ensures match ReadStamp(Drop(octets, position))
            case Ok((stamp, rest)) => r == Ok(stamp) && Drop(octets, after) == rest && after >= position
            case Truncated => r == Truncated
            case ValueError => r == ValueError
  {
    hide ReadTag, FindClose, Drop, Skip;
    var choice, date, time, tag;
    choice, after := Next(octets, position);
    if choice.IsFailure() { return choice.PropagateFailure(), after; }
    if choice.value.kind == Open && choice.value.number == 2 {
      date, after := Next(octets, after);
      if date.IsFailure() { return date.PropagateFailure(), after; }
      time, after := Next(octets, after);
      if time.IsFailure() { return time.PropagateFailure(), after; }
      tag, after := Next(octets, after);
      if tag.IsFailure() { return tag.PropagateFailure(), after; }
      return Ok(Some((date.value.body, time.value.body))), after;
    }
    if choice.value.kind == Open {
      var end := SkipConstructed(octets, after);
      if end.IsFailure() { return end.PropagateFailure(), after; }
      return Ok(None), end.value;
    }
    return Ok(None), after;
  }

  method ReadStampFieldAt(octets: Bytes, position: nat) returns (r: Result<Option<(Bytes, Bytes)>>, after: nat)
    ensures match ReadStampField(Drop(octets, position))
            case Ok((stamp, rest)) => r == Ok(stamp) && Drop(octets, after) == rest && after >= position
            case Truncated => r == Truncated
            case ValueError => r == ValueError
  {
    hide ReadTag, Drop, ReadStamp;
    r, after := ReadStampAt(octets, position);
    if r.IsFailure() { return r.PropagateFailure(), after; }
    var tag;
    tag, after := Next(octets, after);
    if tag.IsFailure() { return tag.PropagateFailure(), after; }
  }

  /** `EventNotification.__init__`: one pass over the parameters, setting fields. */
  method DecodeFields(octets: Bytes, start: nat) returns (r: Result<Fields>)
    ensures r == ParseFields(Drop(octets, start), Unset())
  {
    hide ReadTag, FindClose, Drop, Assign, Skip, ReadStampField;
    var f := Unset();
    var position := start;
    while position < |octets|
      invariant ParseFields(Drop(octets, position), f) == ParseFields(Drop(octets, start), Unset())
      decreases |octets| - position
    {
      var tag, after := Next(octets, position);
      if tag.IsFailure() { return tag.PropagateFailure(); }
      position := after;
      if tag.value.kind == Open {
        if tag.value.number == 3 {
          var stamp;
          stamp, position := ReadStampFieldAt(octets, position);
          if stamp.IsFailure() { return stamp.PropagateFailure(); }
          f := f.(timeStamp := stamp.value);
        } else {
          var end := SkipConstructed(octets, position);
          if end.IsFailure() { return end.PropagateFailure(); }
          position := end.value;
        }
      } else if tag.value.kind == Value && tag.value.isContext {
        var updated := Assign(f, tag.value.number, tag.value.body);
        if updated.IsFailure() { return updated.PropagateFailure(); }
        f := updated.value;
      }
    }
    return Ok(f);
  }

  method DecodeNotification(payload: Bytes) returns (r: Result<(bool, Option<byte>, Fields)>)
    ensures r == Decode(payload)
  {
    hide ParseFields, Drop;
    var confirmed := payload != [] && payload[0] / 16 == 0;
    var invokeId: Option<byte> := None;
    if confirmed && |payload| > 2 { invokeId := Some(payload[2]); }
    var fields := DecodeFields(payload, if confirmed then 4 else 2);
    if fields.IsFailure() { return fields.PropagateFailure(); }
    return Ok((confirmed, invokeId, fields.value));
  }

  // ---- Other time stamps, and the event values ----

  /** A time stamp that is a primitive, a time or a sequence number, is passed over. */
  lemma {:induction false} PrimitiveStamp(tag: TagNumber, body: Bytes, rest: Bytes)
    requires |body| <= 4
    ensures ReadStamp(Context(tag, body) + rest) == Ok((None, rest))
  {
    hide ReadTag, Skip;
    ReadContext(tag, body, rest);
  }

  /** So is a constructed one that is not a date and time, whatever balanced octets it holds. */
  lemma {:induction false} OtherStamp(tag: TagNumber, inner: Bytes, rest: Bytes)
    requires tag != 2 && Balanced(inner, 0)
    ensures ReadStamp(Opening(tag) + (inner + (Closing(tag) + rest))) == Ok((None, rest))
  {
    hide ReadTag, FindClose, Balanced, Opening, Closing;
    var tail := Closing(tag) + rest;
    ReadOpening(tag, inner + tail);
    ReadClosing(tag, rest);
    CloseIsFound(inner, 0, tail);
    DropInside(inner, tail, |inner|);
    DropDrop(inner + tail, |inner|, 1);
  }

  /** The out-of-range values, octet by octet: [5] with the value, the in-alarm flag, a deadband of
      1.0 and the limit. */
  lemma EventValuesAre(n: Notification)
    ensures EventValues(n) ==
            [0x5E, 0x0C] + n.exceeding + [0x1A, 0x04, if n.toState == 0 then 0x00 else 0x80] +
            [0x2C, 0x3F, 0x80, 0x00, 0x00, 0x3C] + n.limit + [0x5F]
  {
  }

  /** An application tag at the top level sets no field, nor does a context primitive that is none. */
  lemma {:induction false} ApplicationStep(number: TagNumber, tag: TagNumber, body: Bytes, rest: Bytes, f: Fields)
    requires |body| <= 4 && number != 1 && (tag == 3 || tag == 7 || tag > 11)
    ensures ParseFields(Application(number, body) + rest, f) == ParseFields(rest, f)
    ensures ParseFields(Context(tag, body) + rest, f) == ParseFields(rest, f)
  {
    hide ReadTag, Skip, ReadStampField, Assign, Application, Context;
    ReadApplication(number, body, rest);
    Unassigned(f, tag, body);
    FieldStep(tag, body, rest, f, f);
  }

  lemma Unassigned(f: Fields, tag: nat, body: Bytes)
    requires tag == 3 || tag == 7 || tag > 11
    ensures Assign(f, tag, body) == Ok(f)
  {
  }

  /** Any confirmed request is taken as one, whatever its flags, and names its invoke id as soon as
      it is there; any other APDU is taken as unconfirmed. */
  lemma {:induction false} ConfirmedExactly(payload: Bytes)
    requires Decode(payload).Ok?
    ensures Decode(payload).value.0 <==> payload != [] && payload[0] < 16
    ensures Decode(payload).value.1 ==
            if payload != [] && payload[0] < 16 && |payload| >= 3 then Some(payload[2]) else None
  {
    hide ParseFields;
  }
}
