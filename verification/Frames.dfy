/** BACnet/IP frames: the BVLL and NPDU encoders (Annex J.2 and clause 6.2 of ANSI/ASHRAE
    135) and the test client's `Frame` decoder. */
module Frames {
  import opened Octets

  const BVLC_TYPE: byte := 0x81
  const FORWARDED: byte := 0x04
  const DISTRIBUTE: byte := 0x09
  const UNICAST: byte := 0x0A
  const BROADCAST: byte := 0x0B

  datatype Address = Address(net: Unsigned16, mac: Bytes)

  datatype Npdu = Npdu(
    networkMessage: Option<byte>,
    dest: Option<Address>,
    source: Option<Address>,
    expectingReply: bool,
    hopCount: byte,
    payload: Bytes)

  // ---- Encoding ----

  predicate Fits(a: Option<Address>) {
    a.Some? ==> |a.value.mac| < 256
  }

  function Flag(present: bool, weight: byte): byte {
    if present then weight else 0
  }

  function Control(n: Npdu): byte {
    Flag(n.networkMessage.Some?, 0x80) + Flag(n.dest.Some?, 0x20) + Flag(n.source.Some?, 0x08) +
    Flag(n.expectingReply, 0x04)
  }

  function AddressOctets(a: Option<Address>): Bytes
    requires Fits(a)
  {
    if a.Some? then Pack16(a.value.net) + [|a.value.mac|] + a.value.mac else []
  }

  function HopOctets(n: Npdu): Bytes {
    if n.dest.Some? then [n.hopCount] else []
  }

  function TypeOctets(n: Npdu): Bytes {
    if n.networkMessage.Some? then [n.networkMessage.value] else []
  }

  function NpduOctets(n: Npdu): Bytes
    requires Fits(n.dest) && Fits(n.source)
  {
    [0x01, Control(n)] +
    (AddressOctets(n.dest) + (AddressOctets(n.source) + (HopOctets(n) + (TypeOctets(n) + n.payload))))
  }

  function AddressLength(a: Option<Address>): nat {
    if a.Some? then 3 + |a.value.mac| else 0
  }

  /** The octets in front of the payload. */
  function HeaderLength(n: Npdu): nat {
    2 + AddressLength(n.dest) + AddressLength(n.source)
    + (if n.dest.Some? then 1 else 0) + (if n.networkMessage.Some? then 1 else 0)
  }

  lemma NpduLength(n: Npdu)
    requires Fits(n.dest) && Fits(n.source)
    ensures |NpduOctets(n)| == HeaderLength(n) + |n.payload|
  {
    hide Control;
  }

  function Bvll(function_: byte, body: Bytes): Bytes
    requires 4 + |body| < 0x10000
  {
    [BVLC_TYPE, function_] + Pack16(4 + |body|) + body
  }

  // ---- Decoding ----

  datatype Frame = Frame(
    ok: bool,
    bvlcFunction: Option<byte>,
    bvllData: Bytes,
    originatingMac: Bytes,
    hasNpdu: bool,
    dest: Option<Address>,
    source: Option<Address>,
    expectingReply: bool,
    networkMessage: Option<byte>,
    payload: Bytes)

  function Blank(): Frame {
    Frame(false, None, [], [], false, None, None, false, None, [])
  }

  /** One DNET/DLEN/DADR or SNET/SLEN/SADR group; an address that runs past the end is cut. */
  function ReadAddress(present: bool, s: Bytes): Result<(Option<Address>, Bytes)> {
    if !present then Ok((None, s))
    else if |s| < 3 then Truncated
    else Ok((Some(Address(Word(s[0], s[1]), Take(s[3..], s[2]))), Drop(s, 3 + s[2] as int)))
  }

  function Word(high: byte, low: byte): Unsigned16 {
    (high as int) * 0x100 + low
  }

  /** The message type; a proprietary one is followed by a vendor id the decoder skips. */
  function ReadType(present: bool, s: Bytes): Result<(Option<byte>, Bytes)> {
    if !present then Ok((None, s))
    else if s == [] then Truncated
    else Ok((Some(s[0]), Drop(s, if s[0] >= 0x80 then 3 else 1)))
  }

  function ReadNpdu(f: Frame, octets: Bytes): Result<Frame> {
    if |octets| < 2 || octets[0] != 0x01 then Ok(f)
    else
      var control := octets[1];
      var (dest, afterDest) :- ReadAddress(Bit(control, 0x20), Drop(octets, 2));
      var (source, afterSource) :- ReadAddress(Bit(control, 0x08), afterDest);
      var afterHop := if Bit(control, 0x20) then Drop(afterSource, 1) else afterSource;
      var (messageType, payload) :- ReadType(Bit(control, 0x80), afterHop);
      Ok(f.(ok := true, hasNpdu := true, dest := dest, source := source,
            expectingReply := Bit(control, 0x04), networkMessage := messageType, payload := payload))
  }

  function ReadFrame(data: Bytes): Result<Frame> {
    if |data| < 4 || data[0] != BVLC_TYPE then Ok(Blank())
    else
      var f := Blank().(bvlcFunction := Some(data[1]), bvllData := data[4..]);
      if data[1] == FORWARDED then ReadNpdu(f.(originatingMac := Take(data[4..], 6)), Drop(data, 10))
      else if data[1] == DISTRIBUTE || data[1] == UNICAST || data[1] == BROADCAST then ReadNpdu(f, data[4..])
      else Ok(f.(ok := true))
  }

  // ---- Round trip ----

  lemma ControlBits(n: Npdu)
    ensures Bit(Control(n), 0x80) == n.networkMessage.Some?
    ensures Bit(Control(n), 0x20) == n.dest.Some?
    ensures Bit(Control(n), 0x08) == n.source.Some?
    ensures Bit(Control(n), 0x04) == n.expectingReply
  {
  }

  lemma AddressReads(a: Option<Address>, rest: Bytes)
    requires Fits(a)
    ensures ReadAddress(a.Some?, AddressOctets(a) + rest) == Ok((a, rest))
  {
    if a.Some? {
      var net, mac := a.value.net, a.value.mac;
      var s := AddressOctets(a) + rest;
      BigEndianSmall(Pack16(net));
      Regroup3(Pack16(net) + [|mac|], mac, rest);
      assert s[3..] == mac + rest;
      assert s[3..][..|mac|] == mac;
      DropPrefix(AddressOctets(a), rest);
    } else {
      assert AddressOctets(a) + rest == rest;
    }
  }

  /** What the decoder takes for the payload: after a proprietary message type it skips two
      octets whether or not the sender wrote a vendor id. */
  function SeenPayload(n: Npdu): Bytes {
    if n.networkMessage.Some? && n.networkMessage.value >= 0x80 then Drop(n.payload, 2) else n.payload
  }

  /** The client takes an address that the datagram cuts short as far as it goes. */
  lemma CutAddressReads(net: Unsigned16, length: byte, mac: Bytes)
    requires |mac| < length as int
    ensures ReadAddress(true, Pack16(net) + [length] + mac) == Ok((Some(Address(net, mac)), []))
    ensures ReadAddress(true, Pack16(net)) == Truncated
  {
    var s := Pack16(net) + [length] + mac;
    BigEndianSmall(Pack16(net));
    assert s[0] == Pack16(net)[0] && s[1] == Pack16(net)[1] && s[3..] == mac;
  }

  lemma TypeReads(n: Npdu)
    ensures ReadType(n.networkMessage.Some?, TypeOctets(n) + n.payload) == Ok((n.networkMessage, SeenPayload(n)))
  {
    if n.networkMessage.None? {
      assert TypeOctets(n) + n.payload == n.payload;
    } else {
      DropPrefix(TypeOctets(n), n.payload);
      DropDrop(TypeOctets(n) + n.payload, 1, 2);
    }
  }

  lemma HopReads(n: Npdu, rest: Bytes)
    ensures (if n.dest.Some? then Drop(HopOctets(n) + rest, 1) else HopOctets(n) + rest) == rest
  {
    if n.dest.Some? {
      DropPrefix(HopOctets(n), rest);
    } else {
      assert HopOctets(n) + rest == rest;
    }
  }

  lemma NpduReads(f: Frame, n: Npdu)
    requires Fits(n.dest) && Fits(n.source)
    ensures ReadNpdu(f, NpduOctets(n)) ==
            Ok(f.(ok := true, hasNpdu := true, dest := n.dest, source := n.source,
                  expectingReply := n.expectingReply, networkMessage := n.networkMessage,
                  payload := SeenPayload(n)))
  {
    hide ReadAddress, ReadType, AddressOctets, HopOctets, TypeOctets, Control, SeenPayload, Bit;
    ControlBits(n);
    var afterHop := TypeOctets(n) + n.payload;
    var afterSource := HopOctets(n) + afterHop;
    var afterDest := AddressOctets(n.source) + afterSource;
    DropPrefix([0x01, Control(n)], AddressOctets(n.dest) + afterDest);
    AddressReads(n.dest, afterDest);
    AddressReads(n.source, afterSource);
    HopReads(n, afterHop);
    TypeReads(n);
  }

  /** For every payload and every choice of routing fields the client decodes what was
      encoded; the payload itself comes back exactly when the message type is not a
      proprietary one, or nothing follows it. */
  lemma {:induction false} FrameRoundTrip(n: Npdu, broadcast: bool)
    requires Fits(n.dest) && Fits(n.source) && 4 + |NpduOctets(n)| < 0x10000
    ensures var function_ := if broadcast then BROADCAST else UNICAST;
            ReadFrame(Bvll(function_, NpduOctets(n))) ==
            Ok(Frame(true, Some(function_), NpduOctets(n), [], true, n.dest, n.source, n.expectingReply,
                     n.networkMessage, SeenPayload(n)))
    ensures SeenPayload(n) == n.payload <==>
            n.networkMessage.None? || n.networkMessage.value < 0x80 || n.payload == []
  {
    hide ReadNpdu, NpduOctets;
    var function_ := if broadcast then BROADCAST else UNICAST;
    var octets := NpduOctets(n);
    var data := Bvll(function_, octets);
    DropPrefix([BVLC_TYPE, function_] + Pack16(4 + |octets|), octets);
    NpduReads(Blank().(bvlcFunction := Some(data[1]), bvllData := octets), n);
  }

  /** A Forwarded-NPDU also gives back the originating address. */
  lemma {:induction false} ForwardedRoundTrip(mac: Bytes, n: Npdu)
    requires |mac| == 6 && Fits(n.dest) && Fits(n.source) && 10 + |NpduOctets(n)| < 0x10000
    ensures ReadFrame(Bvll(FORWARDED, mac + NpduOctets(n))) ==
            Ok(Frame(true, Some(FORWARDED), mac + NpduOctets(n), mac, true, n.dest, n.source, n.expectingReply,
                     n.networkMessage, SeenPayload(n)))
  {
    hide ReadNpdu, NpduOctets;
    var octets := NpduOctets(n);
    var head := [BVLC_TYPE, FORWARDED] + Pack16(4 + |mac + octets|);
    var data := Bvll(FORWARDED, mac + octets);
    DropPrefix(head, mac + octets);
    DropDrop(data, 4, 6);
    DropPrefix(mac, octets);
    assert (mac + octets)[..6] == mac;
    NpduReads(Blank().(bvlcFunction := Some(FORWARDED), bvllData := mac + octets, originatingMac := mac), n);
  }

  /** A Distribute-Broadcast-To-Network is decoded like an original broadcast. */
  lemma {:induction false} DistributeRoundTrip(n: Npdu)
    requires Fits(n.dest) && Fits(n.source) && 4 + |NpduOctets(n)| < 0x10000
    ensures ReadFrame(Bvll(DISTRIBUTE, NpduOctets(n))) ==
            Ok(Frame(true, Some(DISTRIBUTE), NpduOctets(n), [], true, n.dest, n.source, n.expectingReply,
                     n.networkMessage, SeenPayload(n)))
  {
    hide ReadNpdu, NpduOctets;
    var octets := NpduOctets(n);
    DropPrefix([BVLC_TYPE, DISTRIBUTE] + Pack16(4 + |octets|), octets);
    NpduReads(Blank().(bvlcFunction := Some(DISTRIBUTE), bvllData := octets), n);
  }

  /** Every other BVLL message gives back its function and its octets, and has no NPDU. */
  lemma {:induction false} BvllOnlyRoundTrip(function_: byte, body: Bytes)
    requires 4 + |body| < 0x10000 && function_ !in {0x04, 0x09, 0x0A, 0x0B}
    ensures ReadFrame(Bvll(function_, body)) ==
            Ok(Blank().(ok := true, bvlcFunction := Some(function_), bvllData := body))
  {
    DropPrefix([BVLC_TYPE, function_] + Pack16(4 + |body|), body);
  }

  /** The BVLL header: type, function, and the length of the whole datagram. */
  lemma BvllHeader(function_: byte, body: Bytes)
    requires 4 + |body| < 0x10000
    ensures var data := Bvll(function_, body);
            && |data| >= 4 && data[0] == 0x81 && data[1] == function_ && BigEndian(data[2..4]) == |data|
            && data[4..] == body
  {
    hide BigEndian;
    assert Bvll(function_, body)[2..4] == Pack16(4 + |body|);
  }

  /** The NPDU header that no decoder here gives back: the version, no reserved control bit and no
      priority, and the hop count right behind the two addresses. */
  lemma {:induction false} NpduHeader(n: Npdu)
    requires Fits(n.dest) && Fits(n.source)
    ensures var s := NpduOctets(n);
            && |s| >= 2 && s[0] == 1 && !Bit(s[1], 0x40) && !Bit(s[1], 0x10) && s[1] % 4 == 0
            && (n.dest.Some? ==>
                  var at := 5 + |n.dest.value.mac| + (if n.source.Some? then 3 + |n.source.value.mac| else 0);
                  at < |s| && s[at] == n.hopCount)
  {
    hide Pack16;
    if n.dest.Some? {
      var front := [0x01, Control(n)] + (AddressOctets(n.dest) + AddressOctets(n.source));
      var back := TypeOctets(n) + n.payload;
      assert NpduOctets(n) == front + ([n.hopCount] + back);
      assert |front| == 2 + 3 + |n.dest.value.mac| + AddressLength(n.source);
    }
  }

  /** A datagram is taken exactly when it is BACnet/IP and either carries no NPDU or one of version
      1; what is not taken shows no NPDU. */
  lemma {:induction false} TakenExactly(data: Bytes)
    requires ReadFrame(data).Ok?
    ensures ReadFrame(data).value.ok <==>
            && |data| >= 4 && data[0] == 0x81
            && (data[1] in {0x09, 0x0A, 0x0B} ==> |data| >= 6 && data[4] == 1)
            && (data[1] == 0x04 ==> |data| >= 12 && data[10] == 1)
    ensures !ReadFrame(data).value.ok ==> !ReadFrame(data).value.hasNpdu
  {
    hide ReadAddress, ReadType, Bit;
    if |data| >= 12 {
      assert Drop(data, 10)[0] == data[10];
    }
  }

  // ---- The decoder as it runs ----

  /** `Frame._decode`: fields are set as the position moves over the datagram. */
  method Decode(data: Bytes) returns (r: Result<Frame>)
    ensures r == ReadFrame(data)
  {
    hide Bit;
    var f := Blank();
    if |data| < 4 || data[0] != BVLC_TYPE { return Ok(f); }
    f := f.(bvlcFunction := Some(data[1]), bvllData := data[4..]);
    if data[1] != FORWARDED && data[1] != DISTRIBUTE && data[1] != UNICAST && data[1] != BROADCAST {
      return Ok(f.(ok := true));
    }
    var offset := 4;
    if data[1] == FORWARDED {
      f := f.(originatingMac := Take(data[4..], 6));
      offset := 10;
    }
    r := DecodeNpdu(f, Drop(data, offset));
  }

  /** One address group at `position` if the control octet announces it. */
  method DecodeAddress(present: bool, octets: Bytes, position: nat) returns (a: Result<Option<Address>>, after: nat)
    ensures match ReadAddress(present, Drop(octets, position))
            case Ok((address, rest)) => a == Ok(address) && Drop(octets, after) == rest
            case Truncated => a == Truncated
            case ValueError => a == ValueError
  {
    after := position;
    if !present { return Ok(None), after; }
    if position + 3 > |octets| { return Truncated, after; }
    var net, length: nat := Word(octets[position], octets[position + 1]), octets[position + 2];
    DropDrop(octets, position, 3);
    DropDrop(octets, position, 3 + length);
    a := Ok(Some(Address(net, Take(Drop(octets, position + 3), length))));
    after := position + 3 + length;
  }

  method DecodeType(present: bool, octets: Bytes, position: nat) returns (t: Result<Option<byte>>, after: nat)
    ensures match ReadType(present, Drop(octets, position))
            case Ok((messageType, rest)) => t == Ok(messageType) && Drop(octets, after) == rest
            case Truncated => t == Truncated
            case ValueError => t == ValueError
  {
    after := position;
    if !present { return Ok(None), after; }
    if position >= |octets| { return Truncated, after; }
    t := Ok(Some(octets[position]));
    after := position + (if octets[position] >= 0x80 then 3 else 1);
    DropDrop(octets, position, after - position);
  }

  method DecodeNpdu(blank: Frame, octets: Bytes) returns (r: Result<Frame>)
    ensures r == ReadNpdu(blank, octets)
  {
    hide Bit, Drop, Take, Word, ReadAddress, ReadType;
    var f := blank;
    if |octets| < 2 || octets[0] != 0x01 { return Ok(f); }
    var control := octets[1];
    f := f.(hasNpdu := true, expectingReply := Bit(control, 0x04));
    var dest, position := DecodeAddress(Bit(control, 0x20), octets, 2);
    if dest.IsFailure() { return dest.PropagateFailure(); }
    f := f.(dest := dest.value);
    var source;
    source, position := DecodeAddress(Bit(control, 0x08), octets, position);
    if source.IsFailure() { return source.PropagateFailure(); }
    f := f.(source := source.value);
    if Bit(control, 0x20) { // hop count
      DropDrop(octets, position, 1);
      position := position + 1;
    }
    var messageType;
    messageType, position := DecodeType(Bit(control, 0x80), octets, position);
    if messageType.IsFailure() { return messageType.PropagateFailure(); }
    f := f.(networkMessage := messageType.value);
    return Ok(f.(payload := Drop(octets, position), ok := true));
  }
}
