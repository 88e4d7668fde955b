/** Messages octet by octet, as clause 20 of ANSI/ASHRAE 135 lays them out: what the encoders of
    the other modules write for one input each. */
module KnownMessages {
  import opened Octets
  import opened Tags
  import PropertyServices
  import PropertyMultiple
  import AccessSpecifications
  import LandingCalls
  import EventNotifications
  import Frames

  lemma IdOctets()
    ensures ObjectIdOctets(ObjectId(0, 1)) == [0x00, 0x00, 0x00, 0x01]
    ensures ObjectIdOctets(ObjectId(1, 1)) == [0x00, 0x40, 0x00, 0x01]
    ensures ObjectIdOctets(ObjectId(8, 389999)) == [0x02, 0x05, 0xF3, 0x6F]
  {
    hide BigEndian;
  }

  lemma SmallUnsigned(v: byte)
    ensures UnsignedOctets(v) == [v]
  {
    hide BigEndian;
  }

  /** ReadProperty of Analog Input 1, Present_Value. */
  lemma {:induction false} ReadPropertyOctets()
    ensures PropertyServices.ReadPropertyRequest(1, ObjectId(0, 1), 85, None) ==
            [0x00, 0x05, 0x01, 0x0C, 0x0C, 0x00, 0x00, 0x00, 0x01, 0x19, 0x55]
  {
    hide ObjectIdOctets, UnsignedOctets;
    IdOctets();
    SmallUnsigned(85);
  }

  /** WriteProperty of Analog Output 1, Present_Value, the REAL 1.0 at priority 8. */
  lemma {:induction false} WritePropertyOctets()
    ensures var w := PropertyServices.Request(ObjectId(1, 1), 85, None, [0x44, 0x3F, 0x80, 0, 0], Some(8));
            PropertyServices.WritePropertyRequest(2, w) ==
            [0x00, 0x05, 0x02, 0x0F, 0x0C, 0x00, 0x40, 0x00, 0x01, 0x19, 0x55] +
            [0x3E, 0x44, 0x3F, 0x80, 0x00, 0x00, 0x3F, 0x49, 0x08]
  {
    hide ObjectIdOctets, UnsignedOctets;
    IdOctets();
    SmallUnsigned(85);
    SmallUnsigned(8);
  }

  /** The answer to Object_List[0] of device 389999: an Unsigned. */
  lemma {:induction false} ReadPropertyAckOctets()
    ensures PropertyServices.ReadPropertyAck(3, ObjectId(8, 389999), 76, Some(0), ApplicationUnsigned(7)) ==
            [0x30, 0x03, 0x0C, 0x0C, 0x02, 0x05, 0xF3, 0x6F, 0x19, 0x4C, 0x29, 0x00] + [0x3E, 0x21, 0x07, 0x3F]
  {
    hide ObjectIdOctets, UnsignedOctets;
    IdOctets();
    SmallUnsigned(76);
    SmallUnsigned(0);
    SmallUnsigned(7);
  }

  /** ReadPropertyMultiple of Analog Input 1: Present_Value, and element 1 of property 87. */
  lemma {:induction false} ReadMultipleOctets()
    ensures var spec := AccessSpecifications.Spec(ObjectId(0, 1), [(85, None), (87, Some(1))]);
            AccessSpecifications.SpecsOctets([spec]) ==
            [0x0C, 0x00, 0x00, 0x00, 0x01, 0x1E, 0x09, 0x55, 0x09, 0x57, 0x19, 0x01, 0x1F]
  {
    hide ObjectIdOctets, UnsignedOctets;
    IdOctets();
    SmallUnsigned(85);
    SmallUnsigned(87);
    SmallUnsigned(1);
    var references: seq<(Unsigned32, Option<Unsigned32>)> := [(85, None), (87, Some(1))];
    var spec := AccessSpecifications.Spec(ObjectId(0, 1), references);
    assert references[1..] == [(87, Some(1))] && references[1..][1..] == [];
    assert AccessSpecifications.ReferencesOctets(references[1..]) == [0x09, 0x57, 0x19, 0x01];
    assert AccessSpecifications.ReferencesOctets(references) == [0x09, 0x55, 0x09, 0x57, 0x19, 0x01];
    assert [spec][1..] == [];
  }

  /** Its answer: a REAL, and an unknown property. */
  lemma {:induction false} ReadMultipleAckOctets()
    ensures var found := PropertyMultiple.Entry(85, None, Some([0x44, 0, 0, 0, 0]));
            var missing := PropertyMultiple.Entry(87, Some(1), None);
            var result := PropertyMultiple.ObjectResult(ObjectId(0, 1), [found, missing]);
            PropertyMultiple.ReadPropertyMultipleAck(4, [result]) ==
            [0x30, 0x04, 0x0E, 0x0C, 0x00, 0x00, 0x00, 0x01, 0x1E] +
            ([0x29, 0x55, 0x4E, 0x44, 0x00, 0x00, 0x00, 0x00, 0x4F] +
            ([0x29, 0x57, 0x39, 0x01, 0x5E, 0x91, 0x02, 0x91, 0x20, 0x5F] + [0x1F]))
  {
    hide ObjectIdOctets, UnsignedOctets;
    IdOctets();
    SmallUnsigned(85);
    SmallUnsigned(87);
    SmallUnsigned(1);
    SmallUnsigned(2);
    SmallUnsigned(32);
    var found := PropertyMultiple.Entry(85, None, Some([0x44, 0, 0, 0, 0]));
    var missing := PropertyMultiple.Entry(87, Some(1), None);
    var es := [found, missing];
    assert es[1..] == [missing] && es[1..][1..] == [];
    assert PropertyMultiple.ErrorOctets() == [0x91, 0x02, 0x91, 0x20];
    assert PropertyMultiple.EntryHead(missing) == [0x29, 0x57, 0x39, 0x01];
    assert PropertyMultiple.EntryValue(missing) == [0x5E, 0x91, 0x02, 0x91, 0x20, 0x5F];
    var last := [missing];
    assert last[1..] == [] && PropertyMultiple.EntriesOctets(last[1..]) == [];
    var second := PropertyMultiple.EntriesOctets(last);
    assert second == PropertyMultiple.EntryHead(last[0]) + (PropertyMultiple.EntryValue(last[0]) + []);
    assert second == [0x29, 0x57, 0x39, 0x01, 0x5E, 0x91, 0x02, 0x91, 0x20, 0x5F];
    assert PropertyMultiple.EntriesOctets(es) == [0x29, 0x55, 0x4E, 0x44, 0x00, 0x00, 0x00, 0x00, 0x4F] + second;
    var rs := [PropertyMultiple.ObjectResult(ObjectId(0, 1), es)];
    assert rs[1..] == [];
  }

  /** A landing call from floor 5, upwards. */
  lemma {:induction false} LandingCallOctets()
    ensures LandingCalls.StatusOctets(LandingCalls.Status(5, LandingCalls.Direction(3), Some([65, 66]))) ==
            [0x09, 0x05, 0x19, 0x03, 0x3B, 0x00, 0x41, 0x42]
    ensures LandingCalls.StatusOctets(LandingCalls.Status(5, LandingCalls.Destination(9), None)) ==
            [0x09, 0x05, 0x29, 0x09]
  {
    hide UnsignedOctets;
    SmallUnsigned(5);
    SmallUnsigned(3);
    SmallUnsigned(9);
  }

  /** A routed unicast: DNET 5 with one octet, SNET 6 with none, expecting a reply. */
  lemma {:induction false} FrameOctets()
    ensures var dest, source := Frames.Address(5, [9]), Frames.Address(6, []);
            var n := Frames.Npdu(None, Some(dest), Some(source), true, 255, [0x10, 0x08]);
            Frames.Bvll(Frames.UNICAST, Frames.NpduOctets(n)) ==
            [0x81, 0x0A, 0x00, 0x10, 0x01, 0x2C, 0x00, 0x05, 0x01, 0x09, 0x00, 0x06, 0x00, 0xFF, 0x10, 0x08]
    ensures Frames.FORWARDED == 0x04 && Frames.DISTRIBUTE == 0x09 && Frames.BROADCAST == 0x0B
  {
    hide BigEndian;
  }

  /** The head of an event notification: service 2 or 3, then process 1, device 389999 and Analog
      Input 1. */
  lemma {:induction false} NotificationOctets(n: EventNotifications.Notification)
    requires EventNotifications.WellFormed(n)
    requires n.process == 1 && n.device == 389999 && n.object_ == ObjectId(0, 1)
    ensures EventNotifications.Apdu(n, Some(7))[..4] == [0x00, 0x05, 0x07, 0x02]
    ensures EventNotifications.Apdu(n, None)[..2] == [0x10, 0x03]
    ensures var s := EventNotifications.Parameters(n);
            |s| >= 13 && s[..13] == [0x09, 0x01, 0x1C, 0x02, 0x05, 0xF3, 0x6F, 0x2C, 0x00, 0x00, 0x00, 0x01, 0x3E]
  {
    hide ObjectIdOctets, UnsignedOctets, EventNotifications.StampOctets, EventNotifications.AfterTextOctets,
         OptionalText;
    IdOctets();
    SmallUnsigned(1);
  }
}
