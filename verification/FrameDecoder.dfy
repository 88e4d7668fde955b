/** The device's decoder as it runs: one walk over the octets with an offset, filling the
    record field by field and returning early. Every index is proved to lie inside the
    frame, for any octets. */
module FrameDecoder {
  import opened Octets
  import opened Tags
  import opened Frames
  import opened PropertyServices
  import opened FrameLog

  method DecodeTagHeader(frame: Bytes, offset: nat) returns (out: Option<TagHeader>)
    ensures out == HeaderOf(Drop(frame, offset))
  {
    hide BigEndian, Bit;
    if offset >= |frame| { return None; }
    ghost var s := Drop(frame, offset);
    assert forall k :: 0 <= k < |s| ==> s[k] == frame[offset + k];
    var position := offset;
    var first := frame[position];
    var number := first / 16;
    var contextSpecific, lvt := Bit(first, 8), first % 8;
    position := position + 1;
    if number == 15 {
      if position >= |frame| { return None; }
      number := frame[position];
      position := position + 1;
    }
    var header := TagHeader(number, contextSpecific, false, false, 0, 0);
    if contextSpecific && lvt == 6 {
      header := header.(isOpening := true);
    } else if contextSpecific && lvt == 7 {
      header := header.(isClosing := true);
    } else if lvt <= 4 {
      header := header.(length := lvt);
    } else if lvt == 5 {
      if position >= |frame| { return None; }
      var lengthOctet := frame[position];
      position := position + 1;
      if lengthOctet < 254 {
        header := header.(length := lengthOctet);
      } else {
        var width := if lengthOctet == 254 then 2 else 4;
        if position + width > |frame| { return None; }
        assert frame[position..position + width] == s[position - offset..position - offset + width];
        header := header.(length := BigEndian(frame[position..position + width]));
        position := position + width;
      }
    } else {
      return None;
    }
    return Some(header.(headerLength := position - offset));
  }

  /** `v = (v << 8) | octet` over a run of octets. */
  method ReadUnsigned(frame: Bytes, start: nat, length: nat) returns (v: nat)
    requires start + length <= |frame|
    ensures v == BigEndian(frame[start..start + length])
  {
    v := 0;
    for i := 0 to length
      invariant v == BigEndian(frame[start..start + i])
    {
      assert frame[start..start + i + 1][..i] == frame[start..start + i];
      v := v * 256 + frame[start + i];
    }
  }

  /** A context primitive at `offset`: its value and where it ends. */
  method DecodePrimitive(frame: Bytes, offset: nat, number: byte, least: nat) returns (v: Option<nat>, after: nat)
    ensures match Primitive(Drop(frame, offset), number, least)
            case None => v == None
            case Some((body, rest)) => v == Some(BigEndian(body)) && Drop(frame, after) == rest
  {
    hide HeaderOf, BigEndian;
    after := offset;
    var header := DecodeTagHeader(frame, offset);
    if header.None? { return None, after; }
    var h := header.value;
    if !h.contextSpecific || h.number != number || h.length == 0 || h.length < least || h.length > 4 ||
       offset + h.headerLength + h.length > |frame|
    {
      return None, after;
    }
    var start := offset + h.headerLength;
    var value := ReadUnsigned(frame, start, h.length);
    DropDrop(frame, offset, h.headerLength);
    DropDrop(frame, offset, h.headerLength + h.length);
    assert frame[start..start + h.length] == Take(Drop(frame, start), h.length);
    return Some(value), start + h.length;
  }

  method DecodeObjectAndProperty(frame: Bytes, offset: nat) returns (out: Option<Shown>)
    ensures out == ShownReference(Drop(frame, offset))
  {
    hide Primitive, Drop, BigEndian;
    var id, position := DecodePrimitive(frame, offset, 0, 4);
    if id.None? { return None; }
    var property, index;
    property, position := DecodePrimitive(frame, position, 1, 1);
    if property.None? { return None; }
    index, position := DecodePrimitive(frame, position, 2, 1);
    return Some(Shown(ObjectId(id.value / 0x400000, id.value % 0x400000), property.value, index));
  }

  /** One address group; `cut` when it does not fit in the frame. */
  method DecodeGroup(frame: Bytes, offset: nat) returns (net: nat, mac: Bytes, cut: bool, after: nat)
    ensures match ReadGroup(true, Drop(frame, offset))
            case Cut(n) => cut && net == n && mac == []
            case Whole(n, m, rest) => !cut && net == n && mac == m && Drop(frame, after) == rest
  {
    net, mac, cut, after := 0, [], true, offset;
    if offset + 3 > |frame| { return; }
    ghost var s := Drop(frame, offset);
    assert s[0] == frame[offset] && s[1] == frame[offset + 1] && s[2] == frame[offset + 2];
    net := Word(frame[offset], frame[offset + 1]);
    var length: nat := frame[offset + 2];
    if offset + 3 + length > |frame| { return; }
    assert s[3..][..length] == frame[offset + 3..offset + 3 + length];
    mac, cut := frame[offset + 3..offset + 3 + length], false;
    after := offset + 3 + length;
    DropDrop(frame, offset, 3 + length);
  }

  method DecodeApdu(frame: Bytes, offset: nat, d: Decoded) returns (out: Decoded)
    requires offset < |frame|
    ensures out == ShowApdu(d, Drop(frame, offset))
  {
    hide ShownReference, Bit;
    ghost var s := Drop(frame, offset);
    assert forall k :: 0 <= k < |s| ==> s[k] == frame[offset + k];
    out := d.(pduType := Some(frame[offset] / 16));
    match frame[offset] / 16
    case 0 =>
      out := out.(segmented := Bit(frame[offset], 8));
      if offset + 2 >= |frame| { return; }
      out := out.(invokeId := Some(frame[offset + 2]));
      var serviceOffset := offset + (if out.segmented then 5 else 3);
      if serviceOffset >= |frame| { return; }
      out := out.(service := Some(frame[serviceOffset]));
      if frame[serviceOffset] == READ_PROPERTY || frame[serviceOffset] == WRITE_PROPERTY {
        var shown := DecodeObjectAndProperty(frame, serviceOffset + 1);
        DropDrop(frame, offset, serviceOffset + 1 - offset);
        out := out.(shown := shown);
      }
    case 1 =>
      if offset + 1 >= |frame| { return; }
      out := out.(service := Some(frame[offset + 1]));
    case 3 =>
      out := out.(segmented := Bit(frame[offset], 8));
      if offset + 1 >= |frame| { return; }
      out := out.(invokeId := Some(frame[offset + 1]));
      var serviceOffset := offset + (if out.segmented then 4 else 2);
      if serviceOffset >= |frame| { return; }
      out := out.(service := Some(frame[serviceOffset]));
      if frame[serviceOffset] == READ_PROPERTY {
        var shown := DecodeObjectAndProperty(frame, serviceOffset + 1);
        DropDrop(frame, offset, serviceOffset + 1 - offset);
        out := out.(shown := shown);
      }
    case 2 =>
      if offset + 2 >= |frame| { return; }
      out := out.(invokeId := Some(frame[offset + 1]), service := Some(frame[offset + 2]));
    case 5 =>
      if offset + 2 >= |frame| { return; }
      out := out.(invokeId := Some(frame[offset + 1]), service := Some(frame[offset + 2]));
    case 6 =>
      if offset + 2 >= |frame| { return; }
      out := out.(invokeId := Some(frame[offset + 1]), reason := Some(frame[offset + 2]));
    case 7 =>
      if offset + 2 >= |frame| { return; }
      out := out.(invokeId := Some(frame[offset + 1]), reason := Some(frame[offset + 2]));
    case _ =>
  }

  method DecodeMessage(frame: Bytes, offset: nat, d: Decoded) returns (out: Decoded)
    ensures out == ShowMessage(d, Drop(frame, offset))
  {
    hide Bit, ShowApdu, Drop;
    out := d;
    if offset >= |frame| { return; }
    DropHead(frame, offset);
    if out.IsNetworkMessage() {
      out := out.(networkMessageType := frame[offset]);
      return;
    }
    out := DecodeApdu(frame, offset, out);
  }

  method DecodeNpdu(frame: Bytes, start: nat, d: Decoded) returns (out: Decoded)
    ensures out == ShowNpdu(d, Drop(frame, start))
  {
    hide Bit, ReadGroup, ShowMessage, Drop;
    out := d;
    if start + 2 > |frame| { return; }
    SecondAt(frame, start);
    DropDrop(frame, start, 2);
    out := out.(hasNpdu := true, version := frame[start], control := frame[start + 1]);
    var offset := start + 2;
    var net, mac, cut := 0, [], false;
    GroupAbsent(Drop(frame, offset));
    if out.HasDest() {
      net, mac, cut, offset := DecodeGroup(frame, offset);
    }
    out := out.(dnet := net);
    if cut { return; }
    out := out.(dadr := mac);
    GroupAbsent(Drop(frame, offset));
    net, mac := 0, [];
    if out.HasSource() {
      net, mac, cut, offset := DecodeGroup(frame, offset);
    }
    out := out.(snet := net);
    if cut { return; }
    out := out.(sadr := mac);
    if out.HasDest() { // hop count
      DropDrop(frame, offset, 1);
      offset := offset + 1;
    }
    out := DecodeMessage(frame, offset, out);
  }

  lemma GroupAbsent(s: Bytes)
    ensures ReadGroup(false, s) == Whole(0, [], s)
  {
  }

  method DecodeBacnetFrame(frame: Bytes) returns (out: Decoded)
    ensures out == Show(frame)
  {
    hide ShowNpdu, Drop;
    out := Nothing();
    if |frame| < 4 || frame[0] != BVLC_TYPE { return; }
    out := out.(bacnetIp := true, bvlcFunction := frame[1]);
    var offset;
    if frame[1] == UNICAST || frame[1] == BROADCAST {
      offset := 4;
    } else if frame[1] == FORWARDED {
      offset := 10;
    } else {
      return;
    }
    out := DecodeNpdu(frame, offset, out);
  }

  lemma SkipAt(message: Bytes, i: nat)
    ensures SkipGroup(false, Drop(message, i)) == Some(Drop(message, i))
    ensures SkipGroup(true, Drop(message, i)) ==
            if i + 3 > |message| then None else Some(Drop(message, i + 3 + message[i + 2] as int))
  {
    if i + 3 <= |message| {
      DropDrop(message, i, 3 + message[i + 2] as int);
    }
  }

  lemma SecondAt(message: Bytes, i: nat)
    requires i + 2 <= |message|
    ensures Drop(message, i)[0] == message[i] && Drop(message, i)[1] == message[i + 1]
  {
  }

  method IsStackChosenBroadcast(message: Bytes) returns (chosen: bool)
    ensures chosen == StackChosen(message)
  {
    hide Bit, Drop, SkipGroup;
    if |message| < 6 || message[0] != BVLC_TYPE { return false; }
    if message[1] != UNICAST && message[1] != BROADCAST { return false; }
    if message[4] != 0x01 { return false; }
    var control := message[5];
    var i := 6;
    SkipAt(message, i);
    if Bit(control, 0x20) {
      if i + 3 > |message| { return false; }
      i := i + 3 + message[i + 2] as int;
    }
    SkipAt(message, i);
    if Bit(control, 0x08) {
      if i + 3 > |message| { return false; }
      i := i + 3 + message[i + 2] as int;
    }
    assert AfterGroups(message) == Some(Drop(message, i));
    if Bit(control, 0x20) {
      DropDrop(message, i, 1);
      i := i + 1;
    }
    if Bit(control, 0x80) { return true; }
    if i + 2 > |message| { return false; }
    SecondAt(message, i);
    return message[i] / 16 == 1 && (message[i + 1] == 0 || message[i + 1] == 1);
  }
}
