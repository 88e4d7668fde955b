/** ReadProperty and WriteProperty (clauses 15.5 and 15.9): the octets a client or server
    builds, and the parsers that take them apart again. */
module PropertyServices {
  import opened Octets
  import opened Tags

  const READ_PROPERTY: byte := 12
  const WRITE_PROPERTY: byte := 15

  function ConfirmedRequest(invokeId: byte, service: byte, parameters: Bytes): Bytes {
    [0x00, 0x05, invokeId, service] + parameters
  }

  function ErrorApdu(invokeId: byte, service: byte, errorClass: Unsigned32, errorCode: Unsigned32): Bytes {
    [0x50, invokeId, service] + (ApplicationEnumerated(errorClass) + ApplicationEnumerated(errorCode))
  }

  /** An optional context-tagged unsigned. */
  function Optional(tag: TagNumber, v: Option<Unsigned32>): Bytes {
    if v.Some? then ContextUnsigned(tag, v.value) else []
  }

  /** [0] object identifier, [1] property identifier, [2] array index if there is one. */
  function Reference(id: ObjectId, property: Unsigned32, index: Option<Unsigned32>): Bytes
    requires Encodable(id)
  {
    ContextObjectId(0, id) + ContextUnsigned(1, property) + Optional(2, index)
  }

  function ReadPropertyRequest(invokeId: byte, id: ObjectId, property: Unsigned32, index: Option<Unsigned32>): Bytes
    requires Encodable(id)
  {
    ConfirmedRequest(invokeId, READ_PROPERTY, Reference(id, property, index))
  }

  function WritePropertyRequest(invokeId: byte, w: Request): Bytes
    requires Encodable(w.id)
  {
    ConfirmedRequest(invokeId, WRITE_PROPERTY,
                     Reference(w.id, w.property, w.index)
                     + (Opening(3) + w.value + Closing(3) + Optional(4, w.priority)))
  }

  /** A ReadProperty ACK; a whole-property answer has no array index. */
  function ReadPropertyAck(invokeId: byte, id: ObjectId, property: Unsigned32, index: Option<Unsigned32>,
      value: Bytes): Bytes
    requires Encodable(id)
  {
    [0x30, invokeId, READ_PROPERTY] + (Reference(id, property, index) + (Opening(3) + value + Closing(3)))
  }

  datatype Request = Request(
    id: ObjectId,
    property: Unsigned32,
    index: Option<Unsigned32>,
    value: Bytes,
    priority: Option<Unsigned32>)

  function OctetCount(v: Unsigned32): nat {
    if v < 0x100 then 1 else if v < 0x10000 then 2 else if v < 0x1000000 then 3 else 4
  }

  function OptionalLength(v: Option<Unsigned32>): nat {
    if v.Some? then 1 + OctetCount(v.value) else 0
  }

  /** How long a WriteProperty request is. */
  function WriteLength(w: Request): nat {
    12 + OctetCount(w.property) + OptionalLength(w.index) + |w.value| + OptionalLength(w.priority)
  }

  lemma WriteLengthIs(invokeId: byte, w: Request)
    requires Encodable(w.id)
    ensures |WritePropertyRequest(invokeId, w)| == WriteLength(w)
  {
    hide ObjectIdOctets, UnsignedOctets, OctetCount;
    UnsignedLength(w.property);
    if w.index.Some? {
      UnsignedLength(w.index.value);
    }
    if w.priority.Some? {
      UnsignedLength(w.priority.value);
    }
  }

  lemma UnsignedLength(v: Unsigned32)
    ensures |UnsignedOctets(v)| == OctetCount(v)
  {
    hide BigEndian;
  }

  /** What a parser returns: a field holds whatever the content octets spell. */
  datatype Parsed = Parsed(
    id: ObjectId,
    property: nat,
    index: Option<nat>,
    value: Bytes,
    priority: Option<nat>)

  function Widen(v: Option<Unsigned32>): Option<nat> {
    if v.Some? then Some(v.value) else None
  }

  function Wanted(w: Request): Parsed {
    Parsed(w.id, w.property, Widen(w.index), w.value, Widen(w.priority))
  }

  // ---- Parsing ----

  /** `struct.unpack(">I", body)` wants exactly four octets. */
  function Unpacked(body: Bytes): Result<ObjectId> {
    if |body| == 4 then Ok(UnpackObjectId(body)) else Truncated
  }

  /** The object and property that open the parameters, and the octets after them. */
  function ParseReference(s: Bytes): Result<(ObjectId, nat, Bytes)> {
    var first :- ReadTag(s);
    var id :- Unpacked(first.body);
    var rest := Drop(s, first.size);
    var property :- ReadTag(rest);
    Ok((id, BigEndian(property.body), Drop(rest, property.size)))
  }

  /** The optional [2] array index, and the octets after it. */
  function ParseIndex(s: Bytes): Result<(Option<nat>, Bytes)> {
    var tag :- ReadTag(s);
    if tag.number == 2 && tag.kind == Value
    then Ok((Some(BigEndian(tag.body)), Drop(s, tag.size)))
    else Ok((None, s))
  }

  /** The optional [4] priority. */
  function ParsePriority(s: Bytes): Result<Option<nat>> {
    if s == [] then Ok(None)
    else
      var tag :- ReadTag(s);
      Ok(Some(BigEndian(tag.body)))
  }

  /** The octets between an opening tag and its closing tag, and what follows. */
  function ParseValue(s: Bytes): Result<(Bytes, Bytes)> {
    var tag :- ReadTag(s);
    var inside := Drop(s, tag.size);
    var (length, end) :- FindClose(inside, 1);
    Ok((Take(inside, length), Drop(inside, end)))
  }

  function ParseWrite(s: Bytes): Result<Parsed> {
    var (id, property, afterReference) :- ParseReference(s);
    var (index, afterIndex) :- ParseIndex(afterReference);
    var (value, afterValue) :- ParseValue(afterIndex);
    var priority :- ParsePriority(afterValue);
    Ok(Parsed(id, property, index, value, priority))
  }

  /** `try: ... except (IndexError, struct.error): return None` */
  function Caught<T>(r: Result<T>): Result<Option<T>> {
    match r
    case Ok(value) => Ok(Some(value))
    case Truncated => Ok(None)
    case ValueError => ValueError
  }

  function ParseWritePropertyRequest(apdu: Bytes): Result<Option<Parsed>> {
    if apdu == [] then Ok(None)
    else if apdu[0] / 16 != 0 then Ok(None)
    else if |apdu| < 4 || apdu[3] != WRITE_PROPERTY then Ok(None)
    else Caught(ParseWrite(Drop(apdu, 4)))
  }

  function ParseIndexed(s: Bytes): Result<(ObjectId, nat, Option<nat>)> {
    var (id, property, rest) :- ParseReference(s);
    if rest == [] then Ok((id, property, None))
    else
      var tag :- ReadTag(rest);
      if tag.isContext && tag.number == 2 && tag.kind == Value
      then Ok((id, property, Some(BigEndian(tag.body))))
      else Ok((id, property, None))
  }

  /** `parse_read_property_request(apdu, with_array_index=True)` */
  function ParseReadPropertyRequest(apdu: Bytes): Result<Option<(ObjectId, nat, Option<nat>)>> {
    Caught(ParseIndexed(Drop(apdu, 4)))
  }

  /** The octets inside the first [3] opening tag, or None. */
  function FindValue(s: Bytes): Result<Option<Bytes>>
    decreases |s|
  {
    if s == [] then Ok(None)
    else
      var tag :- ReadTag(s);
      var rest := Drop(s, tag.size);
      if tag.isContext && tag.number == 3 && tag.kind == Open then
        var (length, end) :- FindClose(rest, 1);
        Ok(Some(Take(rest, length)))
      else FindValue(rest)
  }

  function ReadPropertyValue(apdu: Bytes): Result<Option<Bytes>> {
    FindValue(Drop(apdu, 3))
  }

  // ---- Round trips ----

  lemma ReferenceParses(id: ObjectId, property: Unsigned32, rest: Bytes)
    requires Encodable(id)
    ensures ParseReference(ContextObjectId(0, id) + ContextUnsigned(1, property) + rest) == Ok((id, property, rest))
  {
    hide ReadTag;
    var after := ContextUnsigned(1, property) + rest;
    assert ContextObjectId(0, id) + ContextUnsigned(1, property) + rest == ContextObjectId(0, id) + after;
    ReadContext(0, ObjectIdOctets(id), after);
    ReadContext(1, UnsignedOctets(property), rest);
    ObjectIdRoundTrip(id);
  }

  /** The walk recovers the value exactly when it is balanced. */
  lemma {:induction false} InsideParses(value: Bytes, rest: Bytes)
    ensures var inside := value + Closing(3) + rest;
            var found := FindClose(inside, 1);
            (found.Ok? && Take(inside, found.value.0) == value) <==> Balanced(value, 0)
    ensures Balanced(value, 0) ==>
              && FindClose(value + Closing(3) + rest, 1) == Ok((|value|, |value| + 1))
              && Drop(value + Closing(3) + rest, |value| + 1) == rest
  {
    hide ReadTag, FindClose, Balanced;
    var tail := Closing(3) + rest;
    Regroup3(value, Closing(3), rest);
    ReadClosing(3, rest);
    DropInside(value, tail, |value|);
    DropDrop(value + tail, |value|, 1);
    if Balanced(value, 0) {
      CloseIsFound(value, 0, tail);
    }
    if FindClose(value + tail, 1).Ok? {
      FoundIsBalanced(value + tail, 0);
    }
  }

  lemma {:induction false} ValueParses(value: Bytes, rest: Bytes)
    ensures var r := ParseValue(Opening(3) + value + Closing(3) + rest);
            && (Balanced(value, 0) ==> r == Ok((value, rest)))
            && (r.Ok? && r.value.0 == value ==> Balanced(value, 0))
  {
    hide ReadTag, FindClose, Balanced;
    var inside := value + Closing(3) + rest;
    assert Opening(3) + value + Closing(3) + rest == Opening(3) + inside;
    ReadOpening(3, inside);
    InsideParses(value, rest);
  }

  lemma OptionalReads(tag: TagNumber, v: Unsigned32, rest: Bytes)
    ensures ReadTag(Optional(tag, Some(v)) + rest).Ok?
    ensures var t := ReadTag(Optional(tag, Some(v)) + rest).value;
            && t.number == tag && t.isContext && t.kind == Value && BigEndian(t.body) == v
            && Drop(Optional(tag, Some(v)) + rest, t.size) == rest
  {
    hide ReadTag;
    ReadContext(tag, UnsignedOctets(v), rest);
  }

  lemma IndexParses(index: Option<Unsigned32>, rest: Bytes)
    requires index.None? ==> exists after :: rest == Opening(3) + after
    ensures ParseIndex(Optional(2, index) + rest) == Ok((Widen(index), rest))
  {
    hide ReadTag;
    if index.Some? {
      OptionalReads(2, index.value, rest);
    } else {
      var after :| rest == Opening(3) + after;
      assert Optional(2, index) + rest == rest;
      ReadOpening(3, after);
    }
  }

  lemma {:induction false} PriorityParses(priority: Option<Unsigned32>)
    ensures ParsePriority(Optional(4, priority)) == Ok(Widen(priority))
  {
    hide ReadTag;
    if priority.Some? {
      OptionalReads(4, priority.value, []);
      assert Optional(4, priority) + [] == Optional(4, priority);
    }
  }

  /** The parser recovers every field of a WriteProperty request exactly when the value is
      a balanced run of tags; its contents may hold any octets. */
  lemma {:induction false} WritePropertyRoundTrip(invokeId: byte, w: Request)
    requires Encodable(w.id)
    ensures ParseWritePropertyRequest(WritePropertyRequest(invokeId, w)) == Ok(Some(Wanted(w)))
            <==> Balanced(w.value, 0)
  {
    hide ReadTag, Balanced, ParseReference, ParseIndex, ParseValue, ParsePriority;
    hide ContextObjectId, ContextUnsigned, Optional, Opening, Closing;
    var priority := Optional(4, w.priority);
    var value := Opening(3) + w.value + Closing(3) + priority;
    Regroup4(Opening(3), w.value, Closing(3), priority);
    var tail := Optional(2, w.index) + value;
    DropPrefix([0x00, 0x05, invokeId, WRITE_PROPERTY], Reference(w.id, w.property, w.index) + value);
    Regroup3(ContextObjectId(0, w.id) + ContextUnsigned(1, w.property), Optional(2, w.index), value);
    ReferenceParses(w.id, w.property, tail);
    IndexParses(w.index, value);
    ValueParses(w.value, priority);
    PriorityParses(w.priority);
  }

  lemma {:induction false} ReadPropertyRequestRoundTrip(invokeId: byte, id: ObjectId, property: Unsigned32,
      index: Option<Unsigned32>)
    requires Encodable(id)
    ensures ParseReadPropertyRequest(ReadPropertyRequest(invokeId, id, property, index)) ==
            Ok(Some((id, property, Widen(index))))
  {
    hide ReadTag, ParseReference;
    var tail := Optional(2, index);
    assert Drop(ReadPropertyRequest(invokeId, id, property, index), 4) == Reference(id, property, index);
    ReferenceParses(id, property, tail);
    if index.Some? {
      OptionalReads(2, index.value, []);
      assert tail + [] == tail;
    }
  }

  lemma {:induction false} SkipTo(primitive: Bytes, rest: Bytes, tag: TagNumber, body: Bytes)
    requires |body| <= 4 && primitive == Context(tag, body)
    ensures FindValue(primitive + rest) == FindValue(rest)
  {
    hide ReadTag, FindClose;
    ReadContext(tag, body, rest);
  }

  lemma {:induction false} SkipReference(id: ObjectId, property: Unsigned32, index: Option<Unsigned32>, rest: Bytes)
    requires Encodable(id)
    ensures FindValue(Reference(id, property, index) + rest) == FindValue(rest)
  {
    hide ReadTag, FindClose, FindValue, Context;
    var a, b, c := ContextObjectId(0, id), ContextUnsigned(1, property), Optional(2, index);
    Regroup4(a, b, c, rest);
    SkipTo(a, b + (c + rest), 0, ObjectIdOctets(id));
    SkipTo(b, c + rest, 1, UnsignedOctets(property));
    if index.Some? {
      SkipTo(c, rest, 2, UnsignedOctets(index.value));
    } else {
      assert c + rest == rest;
    }
  }

  lemma {:induction false} FindConstructed(value: Bytes)
    ensures FindValue(Opening(3) + (value + Closing(3))) == Ok(Some(value)) <==> Balanced(value, 0)
  {
    hide ReadTag, FindClose, Balanced;
    assert value + Closing(3) + [] == value + Closing(3);
    ReadOpening(3, value + Closing(3));
    InsideParses(value, []);
  }

  /** The client finds the value a server put in its ACK, again exactly when it is balanced. */
  lemma ReadPropertyAckRoundTrip(invokeId: byte, id: ObjectId, property: Unsigned32, index: Option<Unsigned32>,
      value: Bytes)
    requires Encodable(id)
    ensures ReadPropertyValue(ReadPropertyAck(invokeId, id, property, index, value)) == Ok(Some(value))
            <==> Balanced(value, 0)
  {
    hide ReadTag, FindClose, Balanced, FindValue, Opening, Closing;
    var constructed := Opening(3) + value + Closing(3);
    DropPrefix([0x30, invokeId, READ_PROPERTY], Reference(id, property, index) + constructed);
    SkipReference(id, property, index, constructed);
    Regroup3(Opening(3), value, Closing(3));
    FindConstructed(value);
  }

  // ---- The parsers as they run, over one position ----

  method ReadPropertyValueAt(apdu: Bytes) returns (r: Result<Option<Bytes>>)
    ensures r == ReadPropertyValue(apdu)
  {
    hide ReadTag;
    var position := 3;
    while position < |apdu|
      invariant FindValue(Drop(apdu, position)) == ReadPropertyValue(apdu)
      decreases |apdu| - position
    {
      var tag := ReadTag(Drop(apdu, position));
      if tag.IsFailure() { return tag.PropagateFailure(); }
      DropDrop(apdu, position, tag.value.size);
      position := position + tag.value.size;
      if tag.value.isContext && tag.value.number == 3 && tag.value.kind == Open {
        var body := ConstructedBody(apdu, position);
        if body.IsFailure() { return body.PropagateFailure(); }
        return Ok(Some(body.value.0));
      }
    }
    return Ok(None);
  }

  /** Reads one tag and moves past it; a failure is the parser's answer. */
  method Next(apdu: Bytes, position: nat) returns (tag: Result<Tag>, after: nat)
    ensures tag == ReadTag(Drop(apdu, position))
    ensures tag.Ok? ==>
              && after == position + tag.value.size
              && Drop(apdu, after) == Drop(Drop(apdu, position), tag.value.size)
  {
    tag := ReadTag(Drop(apdu, position));
    after := position;
    if tag.Ok? {
      after := position + tag.value.size;
      DropDrop(apdu, position, tag.value.size);
    }
  }

  method ParseReferenceAt(apdu: Bytes, position: nat) returns (r: Result<(ObjectId, nat)>, after: nat)
    ensures match ParseReference(Drop(apdu, position))
            case Ok((id, property, rest)) => r == Ok((id, property)) && Drop(apdu, after) == rest
            case Truncated => r == Truncated
            case ValueError => r == ValueError
  {
    hide ReadTag, BigEndian, UnpackObjectId;
    var tag;
    tag, after := Next(apdu, position);
    if tag.IsFailure() { return tag.PropagateFailure(), after; }
    var id := Unpacked(tag.value.body);
    if id.IsFailure() { return id.PropagateFailure(), after; }
    tag, after := Next(apdu, after);
    if tag.IsFailure() { return tag.PropagateFailure(), after; }
    r := Ok((id.value, BigEndian(tag.value.body)));
  }

  method ParseWriteAt(apdu: Bytes) returns (r: Result<Parsed>)
    ensures r == ParseWrite(Drop(apdu, 4))
  {
    hide ReadTag, FindClose, BigEndian, ParseReference, Drop, Take;
    var reference, position := ParseReferenceAt(apdu, 4);
    if reference.IsFailure() { return reference.PropagateFailure(); }
    var request := Parsed(reference.value.0, reference.value.1, None, [], None);
    var tag, after := Next(apdu, position);
    if tag.IsFailure() { return tag.PropagateFailure(); }
    if tag.value.number == 2 && tag.value.kind == Value {
      request := request.(index := Some(BigEndian(tag.value.body)));
      position := after;
    }
    tag, position := Next(apdu, position);
    if tag.IsFailure() { return tag.PropagateFailure(); }
    var body := ConstructedBody(apdu, position);
    if body.IsFailure() { return body.PropagateFailure(); }
    DropDrop(apdu, position, body.value.1 - position);
    request := request.(value := body.value.0);
    position := body.value.1;
    if position < |apdu| {
      tag, position := Next(apdu, position);
      if tag.IsFailure() { return tag.PropagateFailure(); }
      request := request.(priority := Some(BigEndian(tag.value.body)));
    }
    return Ok(request);
  }

  /** `parse_write_property_request` */
  method ParseWritePropertyRequestAt(apdu: Bytes) returns (r: Result<Option<Parsed>>)
    ensures r == ParseWritePropertyRequest(apdu)
  {
    hide ParseWrite;
    if apdu == [] { return Ok(None); }
    if apdu[0] / 16 != 0 { return Ok(None); }
    if |apdu| < 4 { return Ok(None); }
    if apdu[3] != WRITE_PROPERTY { return Ok(None); }
    var request := ParseWriteAt(apdu);
    return Caught(request);
  }

  // ---- What is not such a message ----

  /** Only a confirmed request for WriteProperty is parsed as one, and one that ends before its
      value does is none. */
  lemma {:induction false} OnlyWritesParse(apdu: Bytes)
    ensures ParseWritePropertyRequest(apdu).Ok? && ParseWritePropertyRequest(apdu).value.Some? ==>
              |apdu| > 4 && apdu[0] < 16 && apdu[3] == 15
    ensures ParseWrite(Drop(apdu, 4)) == Truncated ==> ParseWritePropertyRequest(apdu) == Ok(None)
  {
    hide ReadTag, ParseIndex, ParseValue, ParsePriority, Unpacked;
    assert |apdu| == 4 ==> Drop(apdu, 4) == [];
    NothingToRead();
  }

  lemma NothingToRead()
    ensures ReadTag([]) == Truncated
  {
  }

  /** A WriteProperty request cut inside its value, and one cut before it, are no requests. */
  lemma {:induction false} CutWriteIsNone(invokeId: byte, id: ObjectId, property: Unsigned32)
    requires Encodable(id)
    ensures ParseWritePropertyRequest([0x00, 0x05, invokeId, 15]) == Ok(None)
    ensures var reference := ContextObjectId(0, id) + ContextUnsigned(1, property) + Opening(3);
            ParseWritePropertyRequest(ConfirmedRequest(invokeId, 15, reference)) == Ok(None)
  {
    hide ReadTag, ContextObjectId, ContextUnsigned, Opening;
    NothingToRead();
    assert Drop([0x00, 0x05, invokeId, 15], 4) == [];
    var open := Opening(3);
    DropPrefix([0x00, 0x05, invokeId, 15], ContextObjectId(0, id) + ContextUnsigned(1, property) + open);
    ReferenceParses(id, property, open);
    ReadOpening(3, []);
    assert open + [] == open;
  }

  /** Where an array index may stand: a [2] opening tag is none, and the reader does not ask for a
      context tag, so an Unsigned is taken for one. */
  lemma {:induction false} IndexTaken(v: Unsigned32, rest: Bytes)
    ensures ParseIndex(Opening(2) + rest) == Ok((None, Opening(2) + rest))
    ensures ParseIndex(Application(2, UnsignedOctets(v)) + rest) == Ok((Some(v), rest))
  {
    hide ReadTag, Application, Opening;
    ReadOpening(2, rest);
    ReadApplication(2, UnsignedOctets(v), rest);
  }

  /** The parser goes by place and not by tag number: the first two tags are object and property, the
      next opens the value, the one behind the value is the priority. */
  lemma {:induction false} ByPlace(a: TagNumber, b: TagNumber, c: TagNumber, id: ObjectId, v: Unsigned32, rest: Bytes)
    requires Encodable(id)
    ensures ParseReference(Context(a, ObjectIdOctets(id)) + (Context(b, UnsignedOctets(v)) + rest)) == Ok((id, v, rest))
    ensures ParsePriority(Context(c, UnsignedOctets(v)) + rest) == Ok(Some(v))
  {
    hide ReadTag, Context, BigEndian, UnpackObjectId;
    ReadContext(a, ObjectIdOctets(id), Context(b, UnsignedOctets(v)) + rest);
    ReadContext(b, UnsignedOctets(v), rest);
    ReadContext(c, UnsignedOctets(v), rest);
    ObjectIdRoundTrip(id);
    assert Context(c, UnsignedOctets(v)) + rest != [] by {
      NothingToRead();
    }
  }

  lemma {:induction false} ValueByPlace(a: TagNumber, b: TagNumber, body: Bytes, value: Bytes, rest: Bytes)
    requires |body| <= 4 && Balanced(value, 0)
    ensures ParseValue(Opening(a) + (value + (Closing(b) + rest))) == Ok((value, rest))
    ensures ParseValue(Context(a, body) + (value + (Closing(b) + rest))) == Ok((value, rest))
  {
    hide ReadTag, FindClose, Balanced, Opening, Closing, Context;
    var tail := Closing(b) + rest;
    ReadOpening(a, value + tail);
    ReadContext(a, body, value + tail);
    ReadClosing(b, rest);
    CloseIsFound(value, 0, tail);
    DropInside(value, tail, |value|);
    DropDrop(value + tail, |value|, 1);
    assert Take(value + tail, |value|) == value;
  }
}
