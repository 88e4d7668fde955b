/** BACnetLandingCallStatus lists (clause 12.58.9): the value a client writes or reads, and
    the decoder that takes any nesting of such lists apart. */
module LandingCalls {
  import opened Octets
  import opened Tags
  import opened PropertyServices

  datatype Command = Direction(direction: Unsigned32) | Destination(destination: Unsigned32)

  datatype Status = Status(floor: Unsigned32, command: Command, text: Option<Bytes>)

  /** The encoder's own limit: text and character set octet are counted in one octet. */
  predicate WellFormed(c: Status) {
    c.text.Some? ==> |c.text.value| <= 254
  }

  // ---- Encoding ----

  function CommandOctets(c: Command): Bytes {
    match c
    case Direction(d) => ContextUnsigned(1, d)
    case Destination(d) => ContextUnsigned(2, d)
  }

  function StatusOctets(c: Status): Bytes
    requires WellFormed(c)
  {
    ContextUnsigned(0, c.floor) + (CommandOctets(c.command) + OptionalText(3, c.text))
  }

  /** A call, or the opening or closing tag of a list around calls. */
  datatype Item = Listed(call: Status) | Opens(tag: TagNumber) | Closes(tag: TagNumber)

  predicate AllWellFormed(items: seq<Item>) {
    forall i :: 0 <= i < |items| && items[i].Listed? ==> WellFormed(items[i].call)
  }

  predicate AllShort(items: seq<Item>) {
    forall i :: 0 <= i < |items| && items[i].Listed? ==> ShortText(items[i].call.text)
  }

  function ItemsOctets(items: seq<Item>): Bytes
    requires AllWellFormed(items)
  {
    if items == [] then []
    else
      (match items[0]
       case Listed(c) => StatusOctets(c)
       case Opens(tag) => Opening(tag)
       case Closes(tag) => Closing(tag))
      + ItemsOctets(items[1..])
  }

  // ---- Decoding ----

  datatype Read = Read(floor: nat, direction: Option<nat>, destination: Option<nat>, text: Option<Bytes>)

  /** A context primitive starts a call or sets a field of the last one. */
  function Noted(calls: seq<Read>, tag: Tag): seq<Read> {
    var v := BigEndian(tag.body);
    var n := |calls| - 1;
    if tag.kind != Value || !tag.isContext then calls
    else if tag.number == 0 then calls + [Read(v, None, None, None)]
    else if calls == [] then calls
    else if tag.number == 1 then calls[n := calls[n].(direction := Some(v))]
    else if tag.number == 2 then calls[n := calls[n].(destination := Some(v))]
    else if tag.number == 3 then calls[n := calls[n].(text := Some(Drop(tag.body, 1)))]
    else calls
  }

  function ParseCalls(s: Bytes, calls: seq<Read>): Result<seq<Read>>
    decreases |s|
  {
    if s == [] then Ok(calls)
    else
      var tag :- ReadTag(s);
      ParseCalls(Drop(s, tag.size), Noted(calls, tag))
  }

  /** The call a status spells. */
  function Meant(c: Status): Read {
    Read(c.floor,
         if c.command.Direction? then Some(c.command.direction) else None,
         if c.command.Destination? then Some(c.command.destination) else None,
         c.text)
  }

  function AllMeant(items: seq<Item>): seq<Read> {
    if items == [] then []
    else (if items[0].Listed? then [Meant(items[0].call)] else []) + AllMeant(items[1..])
  }

  // ---- Round trip ----

  lemma {:induction false} StepTag(s: Bytes, rest: Bytes, tag: Tag, calls: seq<Read>)
    requires ReadTag(s) == Ok(tag) && Drop(s, tag.size) == rest
    ensures ParseCalls(s, calls) == ParseCalls(rest, Noted(calls, tag))
  {
    hide ReadTag, Drop, Noted;
  }

  lemma {:induction false} StepUnsigned(tag: TagNumber, v: Unsigned32, rest: Bytes, calls: seq<Read>)
    ensures ParseCalls(ContextUnsigned(tag, v) + rest, calls) ==
            ParseCalls(rest, Noted(calls, Tag(tag, true, Value, UnsignedOctets(v), 1 + |UnsignedOctets(v)|)))
  {
    hide ReadTag, Drop, Noted, Context, ParseCalls;
    var body := UnsignedOctets(v);
    ReadContext(tag, body, rest);
    StepTag(Context(tag, body) + rest, rest, Tag(tag, true, Value, body, 1 + |body|), calls);
  }

  function TextSeen(text: Option<Bytes>, rest: Bytes): Option<Bytes>
    requires text.Some? ==> |text.value| <= 254
  {
    if text.Some? then Some(TextRead(text.value, rest)) else None
  }

  lemma {:induction false} StepText(text: Option<Bytes>, rest: Bytes, front: seq<Read>, last: Read)
    requires (text.Some? ==> |text.value| <= 254) && last.text == None
    ensures ParseCalls(OptionalText(3, text) + rest, front + [last]) ==
            ParseCalls(AfterText(text, rest), front + [last.(text := TextSeen(text, rest))])
  {
    hide ReadTag, OptionalText, ParseCalls, TextRead, AfterText;
    if text.Some? {
      ReadText(3, text.value, rest);
      var tag := ReadTag(OptionalText(3, text) + rest).value;
      StepTag(OptionalText(3, text) + rest, AfterText(text, rest), tag, front + [last]);
      var seen := last.(text := TextSeen(text, rest));
      assert (front + [last])[|front| := seen] == front + [seen];
    } else {
      NoText(rest);
    }
  }

  lemma NoText(rest: Bytes)
    ensures OptionalText(3, None) + rest == rest && AfterText(None, rest) == rest
  {
  }

  /** Up to its text, a status adds the call it spells. */
  lemma {:induction false} StepCommand(c: Status, rest: Bytes, calls: seq<Read>)
    requires WellFormed(c)
    ensures ParseCalls(StatusOctets(c) + rest, calls) ==
            ParseCalls(OptionalText(3, c.text) + rest, calls + [Meant(c).(text := None)])
  {
    hide ReadTag, Drop, ContextUnsigned, OptionalText, ParseCalls;
    var command, text := CommandOctets(c.command), OptionalText(3, c.text);
    Regroup3(ContextUnsigned(0, c.floor), command + text, rest);
    Regroup3(command, text, rest);
    StepUnsigned(0, c.floor, command + (text + rest), calls);
    var floor := Read(c.floor, None, None, None);
    var commanded := Meant(c).(text := None);
    match c.command {
      case Direction(d) => StepUnsigned(1, d, text + rest, calls + [floor]);
      case Destination(d) => StepUnsigned(2, d, text + rest, calls + [floor]);
    }
    assert (calls + [floor])[|calls| := commanded] == calls + [commanded];
  }

  /** For every status the encoder accepts: it adds the call it spells with the text it is taken
      for, and reading goes on where the text is taken to end. With a text of at most 252 octets
      that is the call itself, and what follows it. */
  lemma {:induction false} StepStatus(c: Status, rest: Bytes, calls: seq<Read>)
    requires WellFormed(c)
    ensures ParseCalls(StatusOctets(c) + rest, calls) ==
            ParseCalls(AfterText(c.text, rest), calls + [Meant(c).(text := TextSeen(c.text, rest))])
    ensures ShortText(c.text) ==> ParseCalls(StatusOctets(c) + rest, calls) == ParseCalls(rest, calls + [Meant(c)])
  {
    hide ParseCalls, StatusOctets, OptionalText;
    StepCommand(c, rest, calls);
    StepText(c.text, rest, calls, Meant(c).(text := None));
    assert ShortText(c.text) ==> Meant(c).(text := TextSeen(c.text, rest)) == Meant(c);
  }

  lemma {:induction false} StepItems(items: seq<Item>, rest: Bytes, calls: seq<Read>)
    requires AllWellFormed(items) && AllShort(items)
    ensures ParseCalls(ItemsOctets(items) + rest, calls) == ParseCalls(rest, calls + AllMeant(items))
    decreases |items|
  {
    hide ReadTag, Drop, StatusOctets, Opening, Closing, ParseCalls;
    if items == [] {
      assert calls + [] == calls && [] + rest == rest;
    } else {
      var tail := ItemsOctets(items[1..]);
      assert [] + AllMeant(items[1..]) == AllMeant(items[1..]);
      match items[0]
      case Listed(c) =>
        Regroup3(StatusOctets(c), tail, rest);
        StepStatus(c, tail + rest, calls);
        StepItems(items[1..], rest, calls + [Meant(c)]);
        assert calls + [Meant(c)] + AllMeant(items[1..]) == calls + AllMeant(items);
      case Opens(tag) =>
        Regroup3(Opening(tag), tail, rest);
        ReadOpening(tag, tail + rest);
        StepTag(Opening(tag) + (tail + rest), tail + rest, Tag(tag, true, Open, [], 1), calls);
        StepItems(items[1..], rest, calls);
      case Closes(tag) =>
        Regroup3(Closing(tag), tail, rest);
        ReadClosing(tag, tail + rest);
        StepTag(Closing(tag) + (tail + rest), tail + rest, Tag(tag, true, Close, [], 1), calls);
        StepItems(items[1..], rest, calls);
    }
  }

  /** Every list of calls with texts of at most 252 octets, under any opening and closing tags,
      is decoded to its calls in order with their floors, directions or destinations, and texts. */
  lemma {:induction false} LandingCallsRoundTrip(items: seq<Item>)
    requires AllWellFormed(items)
    ensures AllShort(items) ==> ParseCalls(ItemsOctets(items), []) == Ok(AllMeant(items))
  {
    hide ItemsOctets;
    if AllShort(items) {
      StepItems(items, [], []);
      assert ItemsOctets(items) + [] == ItemsOctets(items) && [] + AllMeant(items) == AllMeant(items);
    }
  }

  /** With a longer text somewhere: everything before it is decoded as it was meant, and the rest
      from exactly where that text is taken to end. */
  lemma {:induction false} UpToLongText(front: seq<Item>, c: Status, back: seq<Item>)
    requires AllWellFormed(front) && AllShort(front) && WellFormed(c) && AllWellFormed(back)
    ensures var rest := ItemsOctets(back);
            ParseCalls(ItemsOctets(front) + (StatusOctets(c) + rest), []) ==
            ParseCalls(AfterText(c.text, rest), AllMeant(front) + [Meant(c).(text := TextSeen(c.text, rest))])
  {
    hide ParseCalls, ItemsOctets, StatusOctets, AfterText;
    StepItems(front, StatusOctets(c) + ItemsOctets(back), []);
    assert [] + AllMeant(front) == AllMeant(front);
    StepStatus(c, ItemsOctets(back), AllMeant(front));
  }

  // ---- Longer texts ----

  predicate TextsBelow(calls: seq<Read>, n: nat) {
    forall i :: 0 <= i < |calls| && calls[i].text.Some? ==> |calls[i].text.value| < n
  }

  lemma NotedBelow(calls: seq<Read>, tag: Tag, n: nat)
    requires TextsBelow(calls, n) && |Drop(tag.body, 1)| < n
    ensures TextsBelow(Noted(calls, tag), n)
  {
  }

  lemma BodyFits(s: Bytes)
    requires ReadTag(s).Ok?
    ensures |ReadTag(s).value.body| <= |s|
  {
    hide BigEndian;
  }

  lemma {:induction false} ParsedBelow(s: Bytes, calls: seq<Read>, n: nat)
    requires TextsBelow(calls, n) && |s| <= n && n > 0
    ensures ParseCalls(s, calls).Ok? ==> TextsBelow(ParseCalls(s, calls).value, n)
    decreases |s|
  {
    hide ReadTag, Noted, TextsBelow;
    if s != [] && ReadTag(s).Ok? {
      var tag := ReadTag(s).value;
      BodyFits(s);
      NotedBelow(calls, tag, n);
      ParsedBelow(Drop(s, tag.size), Noted(calls, tag), n);
    }
  }

  lemma {:induction false} MeantBelow(items: seq<Item>)
    requires AllShort(items)
    ensures TextsBelow(AllMeant(items), 253)
    decreases |items|
  {
    if items != [] {
      MeantBelow(items[1..]);
    }
  }

  lemma {:induction false} LongTextIsLost(text: Bytes, calls: seq<Read>)
    requires 253 <= |text| <= 254 && TextsBelow(calls, 253)
    ensures var r := ParseCalls(OptionalText(3, Some(text)), calls);
            r.Ok? ==> TextsBelow(r.value, |text|)
  {
    hide ReadTag, OptionalText, Noted, AfterText, TextRead;
    var s := OptionalText(3, Some(text));
    assert s + [] == s;
    ReadText(3, text, []);
    LongTextShrinks(text, []);
    var tag := ReadTag(s).value;
    NotedBelow(calls, tag, |text|);
    ParsedBelow(Drop(s, tag.size), Noted(calls, tag), |text|);
  }

  /** The last call of a value, and so a single landing call status, reads back exactly when its
      text has at most 252 octets: a longer one never comes back. */
  lemma {:induction false} LastCallReads(front: seq<Item>, c: Status)
    requires AllWellFormed(front) && AllShort(front) && WellFormed(c)
    ensures ParseCalls(ItemsOctets(front) + StatusOctets(c), []) == Ok(AllMeant(front) + [Meant(c)])
            <==> ShortText(c.text)
  {
    hide ParseCalls, StatusOctets, ItemsOctets, OptionalText;
    var before := AllMeant(front);
    StepItems(front, StatusOctets(c), []);
    assert [] + before == before && StatusOctets(c) + [] == StatusOctets(c);
    if ShortText(c.text) {
      StepStatus(c, [], before);
      NothingLeft(before + [Meant(c)]);
    } else {
      StepCommand(c, [], before);
      var text := OptionalText(3, c.text);
      assert text + [] == text;
      MeantBelow(front);
      LongTextIsLost(c.text.value, before + [Meant(c).(text := None)]);
      assert (before + [Meant(c)])[|before|] == Meant(c);
    }
  }

  function Fourteens(): (r: Bytes)
    ensures |r| == 254 && forall i :: 0 <= i < 254 ==> r[i] == 14
  {
    seq(254, _ => 14)
  }

  /** Why that stops at the last call: with the right octets behind it a text of 254 octets is
      read from two places at once. Here 258 octets of 14 are its octets and four opening tags. */
  lemma {:induction false} LongTextByChance()
    ensures var text := Fourteens();
            var call := Listed(Status(1, Direction(3), Some(text)));
            var items := [call, Opens(0), Opens(0), Opens(0), Opens(0)];
            ParseCalls(ItemsOctets(items), []) == Ok(AllMeant(items))
  {
    hide ParseCalls, StatusOctets, ReadTag, BigEndian;
    var text := Fourteens();
    var c := Status(1, Direction(3), Some(text));
    var opens := [Opens(0), Opens(0), Opens(0), Opens(0)];
    var items := [Listed(c), Opens(0), Opens(0), Opens(0), Opens(0)];
    FourOpens();
    var rest: Bytes := [14, 14, 14, 14];
    assert items[1..] == opens && ItemsOctets(items) == StatusOctets(c) + rest;
    StepCommand(c, rest, []);
    var body := [0] + text;
    BigEndianSmall(body[..4]);
    ReadLongString(3, body, rest);
    var s := OptionalText(3, Some(text)) + rest;
    var tag := ReadTag(s).value;
    assert Drop(tag.body, 1) == text;
    assert [] + [Meant(c).(text := None)] == [Meant(c).(text := None)];
    assert AllMeant(items) == [Meant(c)] + [];
    ParseOne(s, tag, [Meant(c).(text := None)]);
    assert [Meant(c).(text := None)][0 := Meant(c)] == [Meant(c)];
    assert ParseCalls(StatusOctets(c) + rest, []) == Ok([Meant(c)]);
    assert [Meant(c)] + [] == [Meant(c)];
  }

  lemma FourOpens()
    ensures var opens := [Opens(0), Opens(0), Opens(0), Opens(0)];
            ItemsOctets(opens) == [14, 14, 14, 14] && AllMeant(opens) == []
  {
    var opens := [Opens(0), Opens(0), Opens(0), Opens(0)];
    assert opens[1..] == [Opens(0), Opens(0), Opens(0)];
    assert opens[1..][1..] == [Opens(0), Opens(0)];
    assert opens[1..][1..][1..] == [Opens(0)];
    assert opens[1..][1..][1..][1..] == [];
  }

  lemma ParseOne(s: Bytes, tag: Tag, calls: seq<Read>)
    requires s != [] && ReadTag(s) == Ok(tag) && tag.size >= |s|
    ensures ParseCalls(s, calls) == Ok(Noted(calls, tag))
  {
    hide ReadTag, Noted;
  }

  lemma NothingLeft(calls: seq<Read>)
    ensures ParseCalls([], calls) == Ok(calls)
  {
  }

  // ---- The decoder over positions ----

  /** `decode_landing_calls` */
  method DecodeLandingCalls(octets: Bytes) returns (r: Result<seq<Read>>)
    ensures r == ParseCalls(octets, [])
  {
    hide ReadTag, Drop, BigEndian;
    var calls: seq<Read> := [];
    var position := 0;
    DropPrefix([], octets);
    assert [] + octets == octets;
    while position < |octets|
      invariant ParseCalls(Drop(octets, position), calls) == ParseCalls(octets, [])
      decreases |octets| - position
    {
      var tag, after := Next(octets, position);
      if tag.IsFailure() { return tag.PropagateFailure(); }
      position := after;
      calls := NoteTag(calls, tag.value);
    }
    return Ok(calls);
  }

  /** Starts a call or changes the last one in the list. */
  method NoteTag(calls: seq<Read>, tag: Tag) returns (r: seq<Read>)
    ensures r == Noted(calls, tag)
  {
    hide BigEndian;
    r := calls;
    if tag.kind != Value || !tag.isContext { return; }
    var v, last := BigEndian(tag.body), |calls| - 1;
    if tag.number == 0 {
      r := r + [Read(v, None, None, None)];
    } else if r != [] && tag.number == 1 {
      r := r[last := r[last].(direction := Some(v))];
    } else if r != [] && tag.number == 2 {
      r := r[last := r[last].(destination := Some(v))];
    } else if r != [] && tag.number == 3 {
      r := r[last := r[last].(text := Some(Drop(tag.body, 1)))];
    }
  }

  // ---- What the decoder passes over ----

  /** Application tags and unknown fields are passed over, and so are fields before any floor. */
  lemma {:induction false} PassedOver(number: TagNumber, tag: TagNumber, body: Bytes, rest: Bytes, calls: seq<Read>)
    requires |body| <= 4 && number != 1 && tag != 0
    ensures ParseCalls(Application(number, body) + rest, calls) == ParseCalls(rest, calls)
    ensures ParseCalls(Context(tag, body) + rest, []) == ParseCalls(rest, [])
    ensures tag > 3 ==> ParseCalls(Context(tag, body) + rest, calls) == ParseCalls(rest, calls)
  {
    hide ReadTag, Drop, Application, Context, ParseCalls;
    ReadApplication(number, body, rest);
    StepTag(Application(number, body) + rest, rest, Tag(number, false, Value, body, 1 + |body|), calls);
    ReadContext(tag, body, rest);
    StepTag(Context(tag, body) + rest, rest, Tag(tag, true, Value, body, 1 + |body|), []);
    StepTag(Context(tag, body) + rest, rest, Tag(tag, true, Value, body, 1 + |body|), calls);
  }
}
