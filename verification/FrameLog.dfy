/** The device's own frame decoder, written separately from the client's: it fills a record
    from whatever octets arrive and stops where they end. Lengths are 32-bit in the source;
    no sum below exceeds a frame length plus a few hundred, so none wraps. */
module FrameLog {
  import opened Octets
  import opened Tags
  import opened Frames
  import opened PropertyServices

  // ---- Tag headers ----

  datatype TagHeader = TagHeader(
    number: byte,
    contextSpecific: bool,
    isOpening: bool,
    isClosing: bool,
    length: nat,
    headerLength: nat)

  /** The header that starts `s`; None on truncation or an encoding it does not handle. */
  function HeaderOf(s: Bytes): (r: Option<TagHeader>)
    ensures r.Some? ==> 1 <= r.value.headerLength <= |s|
    ensures r.Some? && (r.value.isOpening || r.value.isClosing) ==> r.value.length == 0
  {
    if s == [] || (s[0] / 16 == 15 && |s| < 2) then None
    else
      var number := if s[0] / 16 == 15 then s[1] else s[0] / 16;
      var position := if s[0] / 16 == 15 then 2 else 1;
      var context, lvt := Bit(s[0], 8), s[0] % 8;
      if context && lvt == 6 then Some(TagHeader(number, true, true, false, 0, position))
      else if context && lvt == 7 then Some(TagHeader(number, true, false, true, 0, position))
      else if lvt <= 4 then Some(TagHeader(number, context, false, false, lvt, position))
      else if lvt != 5 || position >= |s| then None
      else if s[position] < 254 then Some(TagHeader(number, context, false, false, s[position], position + 1))
      else if s[position] == 254 then
        if position + 3 > |s| then None
        else Some(TagHeader(number, context, false, false, BigEndian(s[position + 1..position + 3]), position + 3))
      else if position + 5 > |s| then None
      else Some(TagHeader(number, context, false, false, BigEndian(s[position + 1..position + 5]), position + 5))
  }

  /** What the client's reader makes of a header the device accepts. */
  function AsTag(h: TagHeader, s: Bytes): Result<Tag> {
    if h.isOpening then Ok(Tag(h.number, true, Open, [], h.headerLength))
    else if h.isClosing then Ok(Tag(h.number, true, Close, [], h.headerLength))
    else if !h.contextSpecific && h.number == 1 then
      if h.length > 255 then ValueError else Ok(Tag(1, false, Value, [h.length], h.headerLength))
    else Ok(Tag(h.number, h.contextSpecific, Value, Take(Drop(s, h.headerLength), h.length), h.headerLength + h.length))
  }

  /** On every octet string the two tag readers agree, except that the device rejects an
      application tag of length 6 or 7 spelled in the first octet. */
  lemma TagReadersAgree(s: Bytes)
    ensures HeaderOf(s).Some? ==> ReadTag(s) == AsTag(HeaderOf(s).value, s)
    ensures HeaderOf(s).None? <==> ReadTag(s) == Truncated || (!Bit(s[0], 8) && s[0] % 8 >= 6)
  {
    hide BigEndian, Bit, Take, Drop;
  }

  // ---- Object and property ----

  /** A context primitive `number` of `least` to 4 octets at the start of `s`, whole. */
  function Primitive(s: Bytes, number: byte, least: nat): Option<(Bytes, Bytes)> {
    match HeaderOf(s)
    case None => None
    case Some(h) =>
      if h.contextSpecific && h.number == number
         && least <= h.length <= 4 && h.length > 0 && h.headerLength + h.length <= |s|
      then Some((Take(Drop(s, h.headerLength), h.length), Drop(s, h.headerLength + h.length)))
      else None
  }

  datatype Shown = Shown(id: ObjectId, property: nat, index: Option<nat>)

  /** The shared layout of ReadProperty, its ACK and WriteProperty. */
  function ShownReference(s: Bytes): Option<Shown> {
    match Primitive(s, 0, 4)
    case None => None
    case Some((object_, afterObject)) =>
      match Primitive(afterObject, 1, 1)
      case None => None
      case Some((property, afterProperty)) =>
        var index := match Primitive(afterProperty, 2, 1)
                     case None => None
                     case Some((index, _)) => Some(BigEndian(index));
        Some(Shown(UnpackObjectId(object_), BigEndian(property), index))
  }

  lemma PrimitiveReads(s: Bytes, number: byte, least: nat)
    ensures Primitive(s, number, least).Some? ==>
              var (body, rest) := Primitive(s, number, least).value;
              && ReadTag(s).Ok?
              && ReadTag(s).value.isContext && ReadTag(s).value.kind == Value && ReadTag(s).value.number == number
              && ReadTag(s).value.body == body && Drop(s, ReadTag(s).value.size) == rest
              && |body| <= 4 && (least == 4 ==> |body| == 4)
  {
    hide HeaderOf, ReadTag;
    TagReadersAgree(s);
  }

  /** A complete context primitive `number` of one to four octets, as the client reads it. */
  predicate IsPrimitive(s: Bytes, number: byte) {
    ReadTag(s).Ok? &&
    var t := ReadTag(s).value;
    t.isContext && t.kind == Value && t.number == number && 1 <= |t.body| <= 4 && t.size <= |s|
  }

  lemma PrimitiveExactly(s: Bytes, number: byte, least: nat)
    requires 1 <= least <= 4
    ensures Primitive(s, number, least).Some? <==> IsPrimitive(s, number) && |ReadTag(s).value.body| >= least
  {
    hide HeaderOf, ReadTag;
    TagReadersAgree(s);
    if ReadTag(s).Ok? && ReadTag(s).value.isContext {
      ContextIsMarked(s);
    }
  }

  lemma ContextIsMarked(s: Bytes)
    requires ReadTag(s).Ok? && ReadTag(s).value.isContext
    ensures s != [] && Bit(s[0], 8)
  {
    hide BigEndian, Bit, Take, Drop;
  }

  /** Where the client finds an index that the device does not show, or nothing at all: behind
      the property comes a [2] that is empty, cut or longer than four octets, or no tag. */
  predicate IndexUnclear(rest: Bytes) {
    rest != [] && !IsPrimitive(rest, 2) &&
    (!ReadTag(rest).Ok? ||
     var t := ReadTag(rest).value;
     t.isContext && t.number == 2 && t.kind == Value)
  }

  /** On arbitrary octets: the device shows an object and property exactly when the client parses
      them and both are complete context primitives, [0] and [1], of at most four octets; they are
      then the same. Client and device then also agree on the array index, exactly when it is not
      unclear. */
  lemma {:induction false} ShownIsParsed(s: Bytes)
    ensures ShownReference(s).Some? <==>
            ParseReference(s).Ok? && IsPrimitive(s, 0) && IsPrimitive(Drop(s, ReadTag(s).value.size), 1)
    ensures ShownReference(s).Some? ==>
              var (id, property, rest) := ParseReference(s).value;
              var shown := ShownReference(s).value;
              && id == shown.id && property == shown.property
              && (shown.index.Some? <==> IsPrimitive(rest, 2))
              && (ParseIndexed(s) == Ok((id, property, shown.index)) <==> !IndexUnclear(rest))
  {
    hide Primitive, ReadTag, BigEndian, UnpackObjectId;
    PrimitiveReads(s, 0, 4);
    PrimitiveExactly(s, 0, 4);
    if ReadTag(s).Ok? {
      var afterObject := Drop(s, ReadTag(s).value.size);
      PrimitiveReads(afterObject, 1, 1);
      PrimitiveExactly(afterObject, 1, 1);
      if ReadTag(afterObject).Ok? {
        var rest := Drop(afterObject, ReadTag(afterObject).value.size);
        PrimitiveReads(rest, 2, 1);
        PrimitiveExactly(rest, 2, 1);
      }
    }
  }

  lemma PrimitiveEncoded(tag: TagNumber, body: Bytes, rest: Bytes, number: byte, least: nat)
    requires 1 <= |body| <= 4 && least <= |body|
    ensures Primitive(Context(tag, body) + rest, number, least) == if number == tag then Some((body, rest)) else None
  {
    hide ReadTag, HeaderOf;
    var s := Context(tag, body) + rest;
    TagReadersAgree(s);
    ReadContext(tag, body, rest);
    assert HeaderOf(s).Some? by {
      assert s[0] == tag * 16 + 8 + |body|;
      assert Bit(s[0], 8);
    }
  }

  lemma NoPrimitive(s: Bytes)
    requires s == [] || exists rest :: s == Opening(3) + rest
    ensures Primitive(s, 2, 1) == None
  {
    hide ReadTag, HeaderOf;
    TagReadersAgree(s);
    if s != [] {
      var rest :| s == Opening(3) + rest;
      ReadOpening(3, rest);
    }
  }

  /** The device shows the object, property and array index that any of the three messages
      was built with; `rest` is what follows the reference in it. */
  lemma {:induction false} ReferenceShown(id: ObjectId, property: Unsigned32, index: Option<Unsigned32>, rest: Bytes)
    requires Encodable(id) && (rest == [] || exists after :: rest == Opening(3) + after)
    ensures ShownReference(Reference(id, property, index) + rest) == Some(Shown(id, property, Widen(index)))
  {
    hide Primitive, Context, BigEndian;
    var a, b, c := ContextObjectId(0, id), ContextUnsigned(1, property), Optional(2, index);
    Regroup4(a, b, c, rest);
    PrimitiveEncoded(0, ObjectIdOctets(id), b + (c + rest), 0, 4);
    PrimitiveEncoded(1, UnsignedOctets(property), c + rest, 1, 1);
    ObjectIdRoundTrip(id);
    if index.Some? {
      PrimitiveEncoded(2, UnsignedOctets(index.value), rest, 2, 1);
    } else {
      assert c + rest == rest;
      NoPrimitive(rest);
    }
  }

  // ---- Frames ----

  datatype Decoded = Decoded(
    bacnetIp: bool,
    bvlcFunction: byte,
    hasNpdu: bool,
    version: byte,
    control: byte,
    dnet: nat,
    dadr: Bytes,
    snet: nat,
    sadr: Bytes,
    networkMessageType: byte,
    pduType: Option<byte>,
    segmented: bool,
    invokeId: Option<byte>,
    service: Option<byte>,
    reason: Option<byte>,
    shown: Option<Shown>)
  {
    predicate HasDest() { Bit(control, 0x20) }
    predicate HasSource() { Bit(control, 0x08) }
    predicate IsNetworkMessage() { Bit(control, 0x80) }
  }

  function Nothing(): Decoded {
    Decoded(false, 0, false, 0, 0, 0, [], 0, [], 0, None, false, None, None, None, None)
  }

  /** The message part of the decode leaves the header fields alone. */
  predicate SameHeader(d: Decoded, e: Decoded) {
    && e.bacnetIp == d.bacnetIp && e.bvlcFunction == d.bvlcFunction
    && e.hasNpdu == d.hasNpdu && e.version == d.version && e.control == d.control
  }

  /** Confirmed request: the service octet moves by two when the request is segmented. */
  function ShowConfirmed(d: Decoded, s: Bytes): (e: Decoded)
    requires s != []
    ensures SameHeader(d, e)
  {
    var d := d.(segmented := Bit(s[0], 8));
    var at := if d.segmented then 5 else 3;
    if |s| <= 2 then d
    else if |s| <= at then d.(invokeId := Some(s[2]))
    else
      var d := d.(invokeId := Some(s[2]), service := Some(s[at]));
      if s[at] == READ_PROPERTY || s[at] == WRITE_PROPERTY then d.(shown := ShownReference(Drop(s, at + 1))) else d
  }

  function ShowComplexAck(d: Decoded, s: Bytes): (e: Decoded)
    requires s != []
    ensures SameHeader(d, e)
  {
    var d := d.(segmented := Bit(s[0], 8));
    var at := if d.segmented then 4 else 2;
    if |s| <= 1 then d
    else if |s| <= at then d.(invokeId := Some(s[1]))
    else
      var d := d.(invokeId := Some(s[1]), service := Some(s[at]));
      if s[at] == READ_PROPERTY then d.(shown := ShownReference(Drop(s, at + 1))) else d
  }

  function ShowApdu(d: Decoded, s: Bytes): (e: Decoded)
    requires s != []
    ensures SameHeader(d, e)
  {
    var pduType := s[0] / 16;
    var d := d.(pduType := Some(pduType));
    if pduType == 0 then ShowConfirmed(d, s)
    else if pduType == 1 then if |s| <= 1 then d else d.(service := Some(s[1]))
    else if pduType == 3 then ShowComplexAck(d, s)
    else if |s| <= 2 then d
    else if pduType == 2 || pduType == 5 then d.(invokeId := Some(s[1]), service := Some(s[2]))
    else if pduType == 6 || pduType == 7 then d.(invokeId := Some(s[1]), reason := Some(s[2]))
    else d
  }

  /** An address group: the network number, the address and the octets after it. A group
      that does not fit ends the decode, after its number if that was there. */
  datatype Group = Cut(net: nat) | Whole(net: nat, mac: Bytes, rest: Bytes)

  function ReadGroup(present: bool, s: Bytes): Group {
    if !present then Whole(0, [], s)
    else if |s| < 3 then Cut(0)
    else if |s| < 3 + s[2] as int then Cut(Word(s[0], s[1]))
    else Whole(Word(s[0], s[1]), s[3..][..s[2]], Drop(s, 3 + s[2] as int))
  }

  /** The message after the routing fields. */
  function ShowMessage(d: Decoded, s: Bytes): (e: Decoded)
    ensures SameHeader(d, e)
  {
    if s == [] then d
    else if d.IsNetworkMessage() then d.(networkMessageType := s[0])
    else ShowApdu(d, s)
  }

  /** The source group, the hop count that comes with a destination, and the message. */
  function ShowSource(d: Decoded, s: Bytes): (e: Decoded)
    ensures SameHeader(d, e)
  {
    var source := ReadGroup(d.HasSource(), s);
    var d := d.(snet := source.net);
    if source.Cut? then d
    else ShowMessage(d.(sadr := source.mac), if d.HasDest() then Drop(source.rest, 1) else source.rest)
  }

  function ShowNpdu(d: Decoded, s: Bytes): (e: Decoded)
    ensures if |s| < 2 then e == d else SameHeader(d.(hasNpdu := true, version := s[0], control := s[1]), e)
  {
    if |s| < 2 then d
    else
      var d := d.(hasNpdu := true, version := s[0], control := s[1]);
      var dest := ReadGroup(d.HasDest(), Drop(s, 2));
      var d := d.(dnet := dest.net);
      if dest.Cut? then d else ShowSource(d.(dadr := dest.mac), dest.rest)
  }

  function Show(frame: Bytes): Decoded {
    if |frame| < 4 || frame[0] != BVLC_TYPE then Nothing()
    else
      var d := Nothing().(bacnetIp := true, bvlcFunction := frame[1]);
      if frame[1] == UNICAST || frame[1] == BROADCAST then ShowNpdu(d, Drop(frame, 4))
      else if frame[1] == FORWARDED then ShowNpdu(d, Drop(frame, 10))
      else d
  }

  // ---- What it recovers ----

  lemma GroupReads(a: Option<Address>, rest: Bytes)
    requires Fits(a)
    ensures ReadGroup(a.Some?, AddressOctets(a) + rest) ==
            if a.Some? then Whole(a.value.net, a.value.mac, rest) else Whole(0, [], rest)
  {
    AddressReads(a, rest);
    if a.Some? {
      var s := AddressOctets(a) + rest;
      assert |s| >= 3 + |a.value.mac| && s[2] == |a.value.mac|;
    }
  }

  function Routed(d: Decoded, n: Npdu): Decoded {
    d.(hasNpdu := true, version := 1, control := Control(n),
       dnet := if n.dest.Some? then n.dest.value.net else 0,
       dadr := if n.dest.Some? then n.dest.value.mac else [],
       snet := if n.source.Some? then n.source.value.net else 0,
       sadr := if n.source.Some? then n.source.value.mac else [])
  }

  lemma {:induction false} NpduShown(d: Decoded, n: Npdu)
    requires Fits(n.dest) && Fits(n.source)
    ensures ShowNpdu(d, NpduOctets(n)) == ShowMessage(Routed(d, n), TypeOctets(n) + n.payload)
  {
    hide ReadGroup, AddressOctets, HopOctets, TypeOctets, Control, Bit, ShowMessage;
    ControlBits(n);
    var afterHop := TypeOctets(n) + n.payload;
    var afterSource := HopOctets(n) + afterHop;
    var afterDest := AddressOctets(n.source) + afterSource;
    DropPrefix([0x01, Control(n)], AddressOctets(n.dest) + afterDest);
    GroupReads(n.dest, afterDest);
    GroupReads(n.source, afterSource);
    HopReads(n, afterHop);
  }

  /** For every payload and every choice of routing fields the device recovers the fields
      that were encoded, the message type of a network message, and of an APDU exactly what
      it shows of those octets alone. */
  lemma {:induction false} FrameShown(n: Npdu, broadcast: bool)
    requires Fits(n.dest) && Fits(n.source) && 4 + |NpduOctets(n)| < 0x10000
    ensures var function_ := if broadcast then BROADCAST else UNICAST;
            var d := Routed(Nothing().(bacnetIp := true, bvlcFunction := function_), n);
            Show(Bvll(function_, NpduOctets(n))) ==
            if n.networkMessage.Some? then d.(networkMessageType := n.networkMessage.value)
            else if n.payload == [] then d
            else ShowApdu(d, n.payload)
  {
    hide ShowNpdu, NpduOctets, ShowApdu, Bit, Control;
    var function_ := if broadcast then BROADCAST else UNICAST;
    var octets := NpduOctets(n);
    DropPrefix([BVLC_TYPE, function_] + Pack16(4 + |octets|), octets);
    NpduShown(Nothing().(bacnetIp := true, bvlcFunction := function_), n);
    ControlBits(n);
    if n.networkMessage.None? {
      assert TypeOctets(n) + n.payload == n.payload;
    }
  }

  /** The same message under another BVLC function. */
  lemma ConfirmedUnder(d: Decoded, function_: byte, s: Bytes)
    requires s != []
    ensures ShowConfirmed(d.(bvlcFunction := function_), s) == ShowConfirmed(d, s).(bvlcFunction := function_)
  {
    hide ShownReference, Bit;
  }

  lemma ComplexAckUnder(d: Decoded, function_: byte, s: Bytes)
    requires s != []
    ensures ShowComplexAck(d.(bvlcFunction := function_), s) == ShowComplexAck(d, s).(bvlcFunction := function_)
  {
    hide ShownReference, Bit;
  }

  lemma ApduUnder(d: Decoded, function_: byte, s: Bytes)
    requires s != []
    ensures ShowApdu(d.(bvlcFunction := function_), s) == ShowApdu(d, s).(bvlcFunction := function_)
  {
    hide ShowConfirmed, ShowComplexAck;
    var typed := d.(pduType := Some(s[0] / 16));
    ConfirmedUnder(typed, function_, s);
    ComplexAckUnder(typed, function_, s);
  }

  lemma MessageUnder(d: Decoded, function_: byte, s: Bytes)
    ensures ShowMessage(d.(bvlcFunction := function_), s) == ShowMessage(d, s).(bvlcFunction := function_)
  {
    hide ShowApdu, Bit;
    if s != [] {
      ApduUnder(d, function_, s);
    }
  }

  /** A Forwarded-NPDU shows what the original shows: the device passes over the originating
      address. */
  lemma {:induction false} ForwardedShown(mac: Bytes, n: Npdu)
    requires |mac| == 6 && Fits(n.dest) && Fits(n.source) && 10 + |NpduOctets(n)| < 0x10000
    ensures var d := Nothing().(bacnetIp := true, bvlcFunction := FORWARDED);
            Show(Bvll(FORWARDED, mac + NpduOctets(n))) == ShowMessage(Routed(d, n), TypeOctets(n) + n.payload)
    ensures Show(Bvll(FORWARDED, mac + NpduOctets(n))) ==
            Show(Bvll(UNICAST, NpduOctets(n))).(bvlcFunction := FORWARDED)
  {
    hide ShowNpdu, NpduOctets, ShowMessage, Bit, Control;
    var octets := NpduOctets(n);
    var d := Nothing().(bacnetIp := true, bvlcFunction := UNICAST);
    var data := Bvll(FORWARDED, mac + octets);
    DropPrefix([BVLC_TYPE, FORWARDED] + Pack16(4 + |mac + octets|), mac + octets);
    DropDrop(data, 4, 6);
    DropPrefix(mac, octets);
    DropPrefix([BVLC_TYPE, UNICAST] + Pack16(4 + |octets|), octets);
    NpduShown(d.(bvlcFunction := FORWARDED), n);
    NpduShown(d, n);
    MessageUnder(Routed(d, n), FORWARDED, TypeOctets(n) + n.payload);
  }

  /** So both decoders read of a forwarded message what they read of the original, and every
      agreement between them carries over. */
  lemma {:induction false} ForwardedAgrees(mac: Bytes, n: Npdu)
    requires |mac| == 6 && Fits(n.dest) && Fits(n.source) && 10 + |NpduOctets(n)| < 0x10000
    ensures var forwarded := Bvll(FORWARDED, mac + NpduOctets(n));
            var original := Bvll(UNICAST, NpduOctets(n));
            && ReadFrame(forwarded).Ok? && ReadFrame(original).Ok?
            && ReadFrame(forwarded).value.payload == ReadFrame(original).value.payload
            && ReadFrame(forwarded).value.originatingMac == mac
            && Show(forwarded).shown == Show(original).shown && Show(forwarded).invokeId == Show(original).invokeId
            && Show(forwarded).service == Show(original).service && Show(forwarded).reason == Show(original).reason
  {
    hide ReadFrame, Show, NpduOctets, ShowMessage;
    ForwardedRoundTrip(mac, n);
    FrameRoundTrip(n, false);
    ForwardedShown(mac, n);
  }

  /** Any other BVLC function, and anything that is not BACnet/IP, shows no NPDU. */
  lemma NoNpduShown(frame: Bytes)
    requires |frame| < 4 || frame[0] != 0x81 || frame[1] !in {0x04, 0x0A, 0x0B}
    ensures var d := Show(frame);
            && !d.hasNpdu && d.pduType == None && d.shown == None
            && (d.bacnetIp <==> |frame| >= 4 && frame[0] == 0x81)
            && (d.bacnetIp ==> d.bvlcFunction == frame[1])
  {
    hide ShowNpdu;
  }

  /** A destination that is cut: its network number is shown if its length octet is there, and
      nothing behind it. */
  lemma {:induction false} CutDestinationShown(d: Decoded, net: Unsigned16, length: byte, mac: Bytes, source: bool)
    requires |mac| < length as int && d.pduType == None
    ensures var control: byte := if source then 0x28 else 0x20;
            var e := ShowNpdu(d, [1, control] + (Pack16(net) + [length] + mac));
            e == d.(hasNpdu := true, version := 1, control := control, dnet := net)
  {
    var control: byte := if source then 0x28 else 0x20;
    var group := Pack16(net) + [length] + mac;
    DropPrefix([1, control], group);
    BigEndianSmall(Pack16(net));
    assert group[0] == Pack16(net)[0] && group[1] == Pack16(net)[1] && group[2] == length;
    assert Bit(control, 0x20);
  }

  // ---- The two decoders together ----

  lemma {:induction false} RequestShown(d: Decoded, invokeId: byte, service: byte, id: ObjectId, property: Unsigned32,
                     index: Option<Unsigned32>, rest: Bytes)
    requires service == READ_PROPERTY || service == WRITE_PROPERTY
    requires Encodable(id) && (rest == [] || exists after :: rest == Opening(3) + after)
    ensures ShowApdu(d, ConfirmedRequest(invokeId, service, Reference(id, property, index) + rest)) ==
            d.(pduType := Some(0), segmented := false, invokeId := Some(invokeId), service := Some(service),
               shown := Some(Shown(id, property, Widen(index))))
  {
    hide ShownReference, Reference;
    var parameters := Reference(id, property, index) + rest;
    DropPrefix([0x00, 0x05, invokeId, service], parameters);
    ReferenceShown(id, property, index, rest);
  }

  lemma {:induction false} AckShown(d: Decoded, invokeId: byte, id: ObjectId, property: Unsigned32,
      index: Option<Unsigned32>, value: Bytes)
    requires Encodable(id)
    ensures ShowApdu(d, ReadPropertyAck(invokeId, id, property, index, value)) ==
            d.(pduType := Some(3), segmented := false, invokeId := Some(invokeId), service := Some(READ_PROPERTY),
               shown := Some(Shown(id, property, Widen(index))))
  {
    hide ShownReference, Reference, Opening, Closing;
    var rest := Opening(3) + value + Closing(3);
    Regroup3(Opening(3), value, Closing(3));
    DropPrefix([0x30, invokeId, READ_PROPERTY], Reference(id, property, index) + rest);
    ReferenceShown(id, property, index, rest);
  }

  /** A segment shows the reference too, two octets later; `more` says whether others follow. */
  lemma {:induction false} SegmentShown(d: Decoded, more: bool, invokeId: byte, sequence: byte, window: byte,
      service: byte, id: ObjectId, property: Unsigned32, index: Option<Unsigned32>, rest: Bytes)
    requires Encodable(id) && (rest == [] || exists after :: rest == Opening(3) + after)
    ensures var first: byte := if more then 0x0C else 0x08;
            var parameters := Reference(id, property, index) + rest;
            service in {READ_PROPERTY, WRITE_PROPERTY} ==>
              ShowApdu(d, [first, 0x05, invokeId, sequence, window, service] + parameters) ==
              d.(pduType := Some(0), segmented := true, invokeId := Some(invokeId), service := Some(service),
                 shown := Some(Shown(id, property, Widen(index))))
    ensures var first: byte := if more then 0x3C else 0x38;
            ShowApdu(d, [first, invokeId, sequence, window, READ_PROPERTY] + (Reference(id, property, index) + rest)) ==
            d.(pduType := Some(3), segmented := true, invokeId := Some(invokeId), service := Some(READ_PROPERTY),
               shown := Some(Shown(id, property, Widen(index))))
  {
    hide ShownReference, Reference;
    var parameters := Reference(id, property, index) + rest;
    var first: byte := if more then 0x0C else 0x08;
    var second: byte := if more then 0x3C else 0x38;
    assert Bit(first, 8) && Bit(second, 8);
    DropPrefix([first, 0x05, invokeId, sequence, window, service], parameters);
    DropPrefix([second, invokeId, sequence, window, READ_PROPERTY], parameters);
    ReferenceShown(id, property, index, rest);
  }

  /** A reference is shown for ReadProperty and WriteProperty requests and ReadProperty ACKs only. */
  lemma ShownOnlyFor(d: Decoded, s: Bytes)
    requires s != [] && d.shown == None && d.service == None
    ensures var e := ShowApdu(d, s);
            e.shown.Some? ==>
              && e.service.Some?
              && ((s[0] / 16 == 0 && e.service.value in {12, 15}) || (s[0] / 16 == 3 && e.service.value == 12))
  {
    hide ShownReference, Bit;
  }

  /** The APDU frames this file compares: any routing, no network message. */
  predicate Carries(n: Npdu, apdu: Bytes) {
    && Fits(n.dest) && Fits(n.source) && 4 + HeaderLength(n) + |apdu| < 0x10000
    && n.networkMessage == None && n.payload == apdu
  }

  function Sent(n: Npdu, broadcast: bool): Bytes
    requires Fits(n.dest) && Fits(n.source) && 4 + HeaderLength(n) + |n.payload| < 0x10000
  {
    NpduLength(n);
    Bvll(if broadcast then BROADCAST else UNICAST, NpduOctets(n))
  }

  /** Client and device read the same object, property and array index out of every
      ReadProperty request, however it is routed. */
  lemma {:induction false} ReadPropertyAgrees(n: Npdu, broadcast: bool, invokeId: byte, id: ObjectId,
      property: Unsigned32, index: Option<Unsigned32>)
    requires Encodable(id) && Carries(n, ReadPropertyRequest(invokeId, id, property, index))
    ensures ReadFrame(Sent(n, broadcast)).Ok?
    ensures ParseReadPropertyRequest(ReadFrame(Sent(n, broadcast)).value.payload) ==
            Ok(Some((id, property, Widen(index))))
    ensures Show(Sent(n, broadcast)).shown == Some(Shown(id, property, Widen(index)))
    ensures Show(Sent(n, broadcast)).invokeId == Some(invokeId)
  {
    hide ReadFrame, Show, ShowApdu, NpduOctets, Reference, ParseReadPropertyRequest, Routed;
    NpduLength(n);
    FrameRoundTrip(n, broadcast);
    FrameShown(n, broadcast);
    ReadPropertyRequestRoundTrip(invokeId, id, property, index);
    var function_ := if broadcast then BROADCAST else UNICAST;
    var d := Routed(Nothing().(bacnetIp := true, bvlcFunction := function_), n);
    assert Reference(id, property, index) + [] == Reference(id, property, index);
    RequestShown(d, invokeId, READ_PROPERTY, id, property, index, []);
  }

  /** Routing fields with room for an APDU of the given length in one datagram. */
  predicate Routes(n: Npdu, length: nat) {
    Fits(n.dest) && Fits(n.source) && n.networkMessage == None && 4 + HeaderLength(n) + length < 0x10000
  }

  /** And out of every WriteProperty request with a balanced value. */
  lemma {:induction false} WritePropertyAgrees(route: Npdu, broadcast: bool, invokeId: byte, w: Request)
    requires Encodable(w.id) && Balanced(w.value, 0) && Routes(route, WriteLength(w))
    ensures var n := route.(payload := WritePropertyRequest(invokeId, w));
            && Carries(n, n.payload)
            && ReadFrame(Sent(n, broadcast)).Ok?
            && ParseWritePropertyRequest(ReadFrame(Sent(n, broadcast)).value.payload) == Ok(Some(Wanted(w)))
            && Show(Sent(n, broadcast)).shown == Some(Shown(w.id, w.property, Widen(w.index)))
            && Show(Sent(n, broadcast)).invokeId == Some(invokeId)
  {
    hide ReadFrame, Show, ShowApdu, NpduOctets, Reference, ParseWritePropertyRequest, Routed, Balanced, Opening,
         Closing, Optional, WriteLength;
    WriteLengthIs(invokeId, w);
    var n := route.(payload := WritePropertyRequest(invokeId, w));
    NpduLength(n);
    FrameRoundTrip(n, broadcast);
    FrameShown(n, broadcast);
    WritePropertyRoundTrip(invokeId, w);
    var function_ := if broadcast then BROADCAST else UNICAST;
    var d := Routed(Nothing().(bacnetIp := true, bvlcFunction := function_), n);
    var rest := Opening(3) + w.value + Closing(3) + Optional(4, w.priority);
    Regroup4(Opening(3), w.value, Closing(3), Optional(4, w.priority));
    RequestShown(d, invokeId, WRITE_PROPERTY, w.id, w.property, w.index, rest);
  }

  /** The device shows the reference of every ReadProperty ACK whose value the client finds. */
  lemma {:induction false} AckAgrees(n: Npdu, broadcast: bool, invokeId: byte, id: ObjectId, property: Unsigned32,
                  index: Option<Unsigned32>, value: Bytes)
    requires Encodable(id) && Balanced(value, 0) && Carries(n, ReadPropertyAck(invokeId, id, property, index, value))
    ensures ReadFrame(Sent(n, broadcast)).Ok?
    ensures ReadPropertyValue(ReadFrame(Sent(n, broadcast)).value.payload) == Ok(Some(value))
    ensures Show(Sent(n, broadcast)).shown == Some(Shown(id, property, Widen(index)))
  {
    hide ReadFrame, Show, ShowApdu, NpduOctets, Reference, ReadPropertyValue, Routed, Balanced;
    NpduLength(n);
    FrameRoundTrip(n, broadcast);
    FrameShown(n, broadcast);
    ReadPropertyAckRoundTrip(invokeId, id, property, index, value);
    var function_ := if broadcast then BROADCAST else UNICAST;
    var d := Routed(Nothing().(bacnetIp := true, bvlcFunction := function_), n);
    AckShown(d, invokeId, id, property, index, value);
  }

  /** The client's `Frame.invoke_id` of an APDU; reading past the end raises. */
  function ClientInvokeId(apdu: Bytes): Result<Option<byte>> {
    if apdu == [] then Ok(None)
    else
      var pduType := apdu[0] / 16;
      if pduType in {2, 3, 5, 6, 7} then if |apdu| > 1 then Ok(Some(apdu[1])) else Truncated
      else if pduType == 0 && |apdu| > 2 then Ok(Some(apdu[2]))
      else Ok(None)
  }

  /** The client's `Frame.service`. */
  function ClientService(apdu: Bytes): Result<Option<byte>> {
    if apdu == [] then Ok(None)
    else
      var pduType := apdu[0] / 16;
      if pduType in {2, 3, 5} then if |apdu| > 2 then Ok(Some(apdu[2])) else Truncated
      else if pduType == 0 && |apdu| > 3 then Ok(Some(apdu[3]))
      else if pduType == 1 && |apdu| > 1 then Ok(Some(apdu[1]))
      else Ok(None)
  }

  /** An answer too short for its invoke id, or for the octet behind it that the device wants
      as well. */
  predicate InvokeIdCut(apdu: Bytes) {
    apdu != [] && ((apdu[0] / 16 == 3 && |apdu| < 2) || (apdu[0] / 16 in {2, 5, 6, 7} && |apdu| < 3))
  }

  /** An answer too short for its service, or a segment: there the client takes the sequence
      number for the service, so the two agree only if the octets are equal or neither has one. */
  predicate ServiceDiffers(apdu: Bytes) {
    apdu != [] &&
    var pduType, segmented := apdu[0] / 16, Bit(apdu[0], 8);
    || (pduType in {2, 3, 5} && |apdu| < 3)
    || (pduType == 3 && segmented && (|apdu| < 5 || apdu[4] != apdu[2]))
    || (pduType == 0 && segmented && |apdu| > 3 && (|apdu| < 6 || apdu[5] != apdu[3]))
  }

  lemma InvokeIdsAgree(d: Decoded, apdu: Bytes)
    requires apdu != [] && d.invokeId == None
    ensures ShowApdu(d, apdu).pduType == Some(apdu[0] / 16)
    ensures ClientInvokeId(apdu) == Ok(ShowApdu(d, apdu).invokeId) <==> !InvokeIdCut(apdu)
  {
    hide ShownReference, Bit;
  }

  lemma ServicesAgree(d: Decoded, apdu: Bytes)
    requires apdu != [] && d.service == None
    ensures ClientService(apdu) == Ok(ShowApdu(d, apdu).service) <==> !ServiceDiffers(apdu)
  {
    hide ShownReference, Bit;
  }

  /** On any octets after the routing fields, the two decoders name the same invoke id exactly
      when the answer is not cut before it, and the same service exactly when the message is
      neither cut nor a segment whose two octets differ. */
  lemma HeadersAgree(d: Decoded, apdu: Bytes)
    requires !d.IsNetworkMessage() && d.pduType == None && d.invokeId == None && d.service == None
    ensures ShowMessage(d, apdu).pduType == if apdu == [] then None else Some(apdu[0] / 16)
    ensures ClientInvokeId(apdu) == Ok(ShowMessage(d, apdu).invokeId) <==> !InvokeIdCut(apdu)
    ensures ClientService(apdu) == Ok(ShowMessage(d, apdu).service) <==> !ServiceDiffers(apdu)
  {
    hide ShowApdu, Bit;
    if apdu != [] {
      InvokeIdsAgree(d, apdu);
      ServicesAgree(d, apdu);
    }
  }

  /** A segmented request, its first part: the client names the sequence number 0 as the service
      where the device finds ReadPropertyMultiple, and on five octets the device names none. */
  lemma SegmentsDiffer(d: Decoded)
    requires !d.IsNetworkMessage() && d.pduType == None && d.invokeId == None && d.service == None
    ensures var request: Bytes := [0x0C, 0x05, 1, 0, 4, 14];
            && ClientService(request) == Ok(Some(0)) && ShowMessage(d, request).service == Some(14)
            && ClientService(request[..5]) == Ok(Some(0)) && ShowMessage(d, request[..5]).service == None
  {
    var request: Bytes := [0x0C, 0x05, 1, 0, 4, 14];
    assert request[..5] == [0x0C, 0x05, 1, 0, 4];
    assert Bit(0x0C, 8);
  }

  // ---- Answers that carry no property ----

  /** SimpleACK, Error, Reject and Abort as a peer builds them. */
  datatype ShortAnswer =
    | SimpleAck(invokeId: byte, service: byte)
    | ErrorPdu(invokeId: byte, service: byte, errorClass: Unsigned32, errorCode: Unsigned32)
    | Reject(invokeId: byte, reason: byte)
    | Abort(invokeId: byte, reason: byte, server: bool)

  function ShortOctets(a: ShortAnswer): (r: Bytes)
    ensures r != []
  {
    match a
    case SimpleAck(invokeId, service) => [0x20, invokeId, service]
    case ErrorPdu(invokeId, service, errorClass, errorCode) =>
      ErrorApdu(invokeId, service, errorClass, errorCode)
    case Reject(invokeId, reason) => [0x60, invokeId, reason]
    case Abort(invokeId, reason, server) => [if server then 0x71 else 0x70, invokeId, reason]
  }

  function ServiceOf(a: ShortAnswer): Option<byte> {
    if a.SimpleAck? || a.ErrorPdu? then Some(a.service) else None
  }

  function ReasonOf(a: ShortAnswer): Option<byte> {
    if a.Reject? || a.Abort? then Some(a.reason) else None
  }

  /** However it is routed, client and device both name the invoke id such an answer was built
      with and the service it answers, and the device shows the reason it was built with. */
  lemma {:induction false} ShortAnswersAgree(n: Npdu, broadcast: bool, a: ShortAnswer)
    requires Carries(n, ShortOctets(a))
    ensures ReadFrame(Sent(n, broadcast)).Ok?
    ensures var payload := ReadFrame(Sent(n, broadcast)).value.payload;
            && ClientInvokeId(payload) == Ok(Some(a.invokeId)) && ClientService(payload) == Ok(ServiceOf(a))
    ensures var e := Show(Sent(n, broadcast));
            && e.invokeId == Some(a.invokeId) && e.service == ServiceOf(a)
            && e.reason == ReasonOf(a) && e.shown == None
  {
    hide ReadFrame, Show, NpduOctets, Routed, ApplicationEnumerated, ShownReference;
    NpduLength(n);
    FrameRoundTrip(n, broadcast);
    FrameShown(n, broadcast);
    var function_ := if broadcast then BROADCAST else UNICAST;
    RoutedBlank(function_, n);
    assert ShortOctets(a)[1] == a.invokeId && ShortOctets(a)[0] / 16 in {2, 5, 6, 7};
  }

  lemma RoutedBlank(function_: byte, n: Npdu)
    ensures var d := Routed(Nothing().(bacnetIp := true, bvlcFunction := function_), n);
            d.invokeId == None && d.service == None && d.reason == None && d.shown == None
  {
    hide Control;
  }

  // ---- Broadcasts the stack chose itself ----

  /** Past an address group; the address itself may run off the end. */
  function SkipGroup(present: bool, s: Bytes): Option<Bytes> {
    if !present then Some(s)
    else if |s| < 3 then None
    else Some(Drop(s, 3 + s[2] as int))
  }

  /** The octets after the two address groups; None when a length octet is missing. */
  function AfterGroups(message: Bytes): Option<Bytes>
    requires |message| >= 6
  {
    match SkipGroup(Bit(message[5], 0x20), Drop(message, 6))
    case None => None
    case Some(rest) => SkipGroup(Bit(message[5], 0x08), rest)
  }

  predicate StackChosen(message: Bytes) {
    && |message| >= 6 && message[0] == BVLC_TYPE
    && (message[1] == UNICAST || message[1] == BROADCAST)
    && message[4] == 0x01
    && AfterGroups(message).Some?
    && (Bit(message[5], 0x80) ||
        var rest := AfterGroups(message).value;
        IsUnconfirmed(if Bit(message[5], 0x20) then Drop(rest, 1) else rest))
  }

  /** An unconfirmed I-Am or I-Have. */
  predicate IsUnconfirmed(apdu: Bytes) {
    |apdu| >= 2 && apdu[0] / 16 == 1 && apdu[1] <= 1
  }

  predicate ShowsUnconfirmed(d: Decoded) {
    d.pduType == Some(1) && d.service.Some? && d.service.value <= 1
  }

  /** The decode shows an original broadcast or unicast of version 1 with a network message
      or an unconfirmed I-Am or I-Have. */
  predicate ShowsAnswer(d: Decoded) {
    && d.bacnetIp && (d.bvlcFunction == UNICAST || d.bvlcFunction == BROADCAST)
    && d.hasNpdu && d.version == 0x01
    && (d.IsNetworkMessage() ||
        ShowsUnconfirmed(d))
  }

  predicate LengthsPresent(message: Bytes) {
    |message| >= 6 && AfterGroups(message).Some?
  }

  lemma GroupsAgree(present: bool, s: Bytes)
    ensures ReadGroup(present, s).Whole? ==> SkipGroup(present, s) == Some(ReadGroup(present, s).rest)
    ensures ReadGroup(present, s).Cut? ==> SkipGroup(present, s) == None || SkipGroup(present, s) == Some([])
  {
  }

  /** The decode of the message: nothing but a complete unconfirmed header shows one. */
  lemma MessageShown(d: Decoded, s: Bytes)
    requires d.pduType == None && d.service == None && !d.IsNetworkMessage()
    ensures ShowsUnconfirmed(ShowMessage(d, s)) <==> IsUnconfirmed(s)
  {
    hide ShownReference;
  }

  /** The routing test and the full decode differ exactly on network messages missing an
      address length octet. */
  lemma {:induction false} StackChosenIsShown(message: Bytes)
    ensures StackChosen(message) <==> ShowsAnswer(Show(message)) && LengthsPresent(message)
    ensures ShowsAnswer(Show(message)) && !LengthsPresent(message) ==> Show(message).IsNetworkMessage()
  {
    hide ReadGroup, SkipGroup, ShowMessage, ShowNpdu, Bit, IsUnconfirmed, ShowsUnconfirmed;
    if |message| >= 6 && message[0] == BVLC_TYPE && (message[1] == UNICAST || message[1] == BROADCAST) {
      var d := Nothing().(bacnetIp := true, bvlcFunction := message[1]);
      var s := Drop(message, 4);
      assert s[0] == message[4] && s[1] == message[5];
      DropDrop(message, 4, 2);
      NothingShown(d);
      if !Bit(message[5], 0x80) {
        NpduAgrees(d, s);
      }
    } else {
      NothingShown(Show(message));
    }
  }

  lemma NothingShown(d: Decoded)
    ensures d.pduType == None ==> !ShowsUnconfirmed(d)
  {
  }

  /** The message behind what is left after the groups, past the hop count if there is one. */
  predicate UnconfirmedAfter(rest: Option<Bytes>, hop: bool) {
    rest.Some? && IsUnconfirmed(if hop then Drop(rest.value, 1) else rest.value)
  }

  lemma SourceAgrees(d: Decoded, s: Bytes)
    requires d.pduType == None && d.service == None && !d.IsNetworkMessage()
    ensures ShowsUnconfirmed(ShowSource(d, s)) <==> UnconfirmedAfter(SkipGroup(d.HasSource(), s), d.HasDest())
  {
    hide ReadGroup, SkipGroup, ShowMessage, Bit;
    GroupsAgree(d.HasSource(), s);
    var source := ReadGroup(d.HasSource(), s);
    if source.Whole? {
      MessageShown(d.(snet := source.net, sadr := source.mac),
                   if d.HasDest() then Drop(source.rest, 1) else source.rest);
    }
  }

  lemma {:induction false} NpduAgrees(d: Decoded, s: Bytes)
    requires d.pduType == None && d.service == None && |s| >= 2 && !Bit(s[1], 0x80)
    ensures var afterDest := SkipGroup(Bit(s[1], 0x20), Drop(s, 2));
            ShowsUnconfirmed(ShowNpdu(d, s)) <==>
            afterDest.Some? && UnconfirmedAfter(SkipGroup(Bit(s[1], 0x08), afterDest.value), Bit(s[1], 0x20))
  {
    hide ReadGroup, SkipGroup, ShowSource, Bit;
    var d1 := d.(hasNpdu := true, version := s[0], control := s[1]);
    GroupsAgree(d1.HasDest(), Drop(s, 2));
    var dest := ReadGroup(d1.HasDest(), Drop(s, 2));
    if dest.Whole? {
      SourceAgrees(d1.(dnet := dest.net, dadr := dest.mac), dest.rest);
    }
    SkipNothing();
  }

  lemma SkipNothing()
    ensures SkipGroup(true, []) == None && SkipGroup(false, []) == Some([])
  {
  }

  /** A network message whose destination group is cut after one octet: shown as one, and
      not taken for an answer. */
  lemma CutNetworkMessageDiffers()
    ensures var message: Bytes := [0x81, 0x0B, 0, 7, 0x01, 0xA0, 0xFF];
            ShowsAnswer(Show(message)) && !StackChosen(message)
  {
    var message: Bytes := [0x81, 0x0B, 0, 7, 0x01, 0xA0, 0xFF];
    assert Drop(message, 4) == [0x01, 0xA0, 0xFF];
    assert Drop(message, 6) == [0xFF];
    assert Drop(Drop(message, 4), 2) == [0xFF];
    assert Bit(0xA0, 0x80) && Bit(0xA0, 0x20) && !Bit(0xA0, 0x08);
  }
}
