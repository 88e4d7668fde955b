/** Tagged octets (clause 20.2.1 of ANSI/ASHRAE 135): the encoders, the tag reader, and the
    walk over nested tags that finds the closing tag of a constructed value. */
module Tags {
  import opened Octets

  /** A tag number that fits the first octet; 15 announces an extended number. */
  type TagNumber = x: int | 0 <= x < 15

  datatype Kind = Open | Close | Value

  datatype Tag = Tag(number: nat, isContext: bool, kind: Kind, body: Bytes, size: nat)

  // ---- Encoders ----

  /** The shortest big-endian form: no leading zero octet unless it is the only one. */
  function UnsignedOctets(v: Unsigned32): (r: Bytes)
    ensures 1 <= |r| <= 4 && BigEndian(r) == v
    ensures |r| > 1 ==> r[0] != 0
  {
    var r := if v < 0x100 then [v]
             else if v < 0x10000 then [v / 0x100, v % 0x100]
             else if v < 0x1000000 then [v / 0x10000, v / 0x100 % 0x100, v % 0x100]
             else Pack32(v);
    BigEndianSmall(r);
    r
  }

  datatype ObjectId = ObjectId(objectType: nat, instance: nat)

  predicate Encodable(id: ObjectId) {
    id.objectType < 0x400 && id.instance < 0x400000
  }

  function ObjectIdOctets(id: ObjectId): (r: Bytes)
    requires Encodable(id)
    ensures |r| == 4
  {
    Pack32(id.objectType * 0x400000 + id.instance)
  }

  /** `raw >> 22` and `raw & 0x3FFFFF` of four octets. */
  function UnpackObjectId(body: Bytes): ObjectId {
    ObjectId(BigEndian(body) / 0x400000, BigEndian(body) % 0x400000)
  }

  lemma ObjectIdRoundTrip(id: ObjectId)
    requires Encodable(id)
    ensures UnpackObjectId(ObjectIdOctets(id)) == id
  {
  }

  /** A context-tagged primitive of at most four content octets. */
  function Context(tag: TagNumber, body: Bytes): Bytes
    requires |body| <= 4
  {
    [tag * 16 + 8 + |body|] + body
  }

  function ContextUnsigned(tag: TagNumber, v: Unsigned32): Bytes {
    Context(tag, UnsignedOctets(v))
  }

  function ContextObjectId(tag: TagNumber, id: ObjectId): Bytes
    requires Encodable(id)
  {
    Context(tag, ObjectIdOctets(id))
  }

  /** A context-tagged string; the length octet holds up to 255. */
  function ContextString(tag: TagNumber, body: Bytes): Bytes
    requires |body| < 256
  {
    if |body| < 5 then Context(tag, body) else [tag * 16 + 13, |body|] + body
  }

  /** An optional character string: a character set octet of zero and the text. */
  function OptionalText(tag: TagNumber, text: Option<Bytes>): Bytes
    requires text.Some? ==> |text.value| <= 254
  {
    if text.Some? then ContextString(tag, [0] + text.value) else []
  }

  predicate ShortText(text: Option<Bytes>) {
    text.Some? ==> |text.value| <= 252
  }

  function Opening(tag: TagNumber): Bytes {
    [tag * 16 + 14]
  }

  function Closing(tag: TagNumber): Bytes {
    [tag * 16 + 15]
  }

  function ApplicationUnsigned(v: Unsigned32): Bytes {
    [0x20 + |UnsignedOctets(v)|] + UnsignedOctets(v)
  }

  function ApplicationEnumerated(v: Unsigned32): Bytes {
    [0x90 + |UnsignedOctets(v)|] + UnsignedOctets(v)
  }

  // ---- The reader ----

  /** The length a tag announces and where its contents start. */
  function ReadLength(s: Bytes, position: nat, lengthValue: nat): (r: Result<(nat, nat)>)
    ensures r.Ok? ==> position <= r.value.1
  {
    if lengthValue != 5 then Ok((lengthValue, position))
    else if position >= |s| then Truncated
    else if s[position] == 254 then
      if position + 3 > |s| then Truncated
      else Ok((BigEndian(s[position + 1..position + 3]), position + 3))
    else if s[position] == 255 then
      if position + 5 > |s| then Truncated
      else Ok((BigEndian(s[position + 1..position + 5]), position + 5))
    else Ok((s[position], position + 1))
  }

  /** The first octet, and the second when it holds an extended tag number. */
  datatype Head = Head(number: byte, isContext: bool, lengthValue: nat, size: nat)

  function ReadHead(s: Bytes): Result<Head> {
    if s == [] then Truncated
    else if s[0] / 16 < 15 then Ok(Head(s[0] / 16, Bit(s[0], 8), s[0] % 8, 1))
    else if |s| < 2 then Truncated
    else Ok(Head(s[1], Bit(s[0], 8), s[0] % 8, 2))
  }

  /** `read_tag(data, position)` where `s` is `data[position:]`. Contents that run past the
      end are cut short, while `size` still counts what the tag announced. */
  function ReadTag(s: Bytes): (r: Result<Tag>)
    ensures r.Ok? ==> s != [] && r.value.size >= 1
  {
    var head :- ReadHead(s);
    if head.isContext && head.lengthValue == 6 then Ok(Tag(head.number, true, Open, [], head.size))
    else if head.isContext && head.lengthValue == 7 then Ok(Tag(head.number, true, Close, [], head.size))
    else
      var (length, start) :- ReadLength(s, head.size, head.lengthValue);
      if !head.isContext && head.number == 1 then // a BOOLEAN keeps its value in the length field
        if length > 255 then ValueError else Ok(Tag(1, false, Value, [length], start))
      else Ok(Tag(head.number, head.isContext, Value, Take(Drop(s, start), length), start + length))
  }

  lemma ContextHead(tag: TagNumber, lengthValue: nat, rest: Bytes)
    requires lengthValue < 8
    ensures ReadHead([tag * 16 + 8 + lengthValue] + rest) == Ok(Head(tag, true, lengthValue, 1))
  {
  }

  lemma ReadContext(tag: TagNumber, body: Bytes, rest: Bytes)
    requires |body| <= 4
    ensures ReadTag(Context(tag, body) + rest) == Ok(Tag(tag, true, Value, body, 1 + |body|))
    ensures |Context(tag, body)| == 1 + |body|
    ensures Drop(Context(tag, body) + rest, 1 + |body|) == rest
  {
    hide ReadHead;
    var s := Context(tag, body) + rest;
    ContextHead(tag, |body|, body + rest);
    assert s == [tag * 16 + 8 + |body|] + (body + rest);
    assert Drop(s, 1) == body + rest;
  }

  /** An application-tagged primitive of at most four content octets. */
  function Application(number: TagNumber, body: Bytes): Bytes
    requires |body| <= 4
  {
    [number * 16 + |body|] + body
  }

  lemma {:induction false} ReadApplication(number: TagNumber, body: Bytes, rest: Bytes)
    requires |body| <= 4 && number != 1
    ensures ReadTag(Application(number, body) + rest) == Ok(Tag(number, false, Value, body, 1 + |body|))
    ensures Drop(Application(number, body) + rest, 1 + |body|) == rest
  {
    var s := Application(number, body) + rest;
    assert s == [number * 16 + |body|] + (body + rest);
    assert ReadHead(s) == Ok(Head(number, false, |body|, 1));
    assert Drop(s, 1) == body + rest;
  }

  lemma ReadOpening(tag: TagNumber, rest: Bytes)
    ensures ReadTag(Opening(tag) + rest) == Ok(Tag(tag, true, Open, [], 1))
    ensures Drop(Opening(tag) + rest, 1) == rest
  {
  }

  lemma ReadClosing(tag: TagNumber, rest: Bytes)
    ensures ReadTag(Closing(tag) + rest) == Ok(Tag(tag, true, Close, [], 1))
    ensures Drop(Closing(tag) + rest, 1) == rest
  {
  }

  /** A string of 254 or 255 octets: its length octet is taken for the mark of a longer length,
      and its first octets for that length. */
  datatype Misread = Misread(mark: nat, length: nat)

  function MisreadOf(body: Bytes): Misread
    requires |body| == 254 || |body| == 255
  {
    var mark := if |body| == 254 then 2 else 4;
    Misread(mark, BigEndian(body[..mark]))
  }

  lemma StringHead(tag: TagNumber, body: Bytes, rest: Bytes)
    requires 5 <= |body| < 256
    ensures var s := ContextString(tag, body) + rest;
            && s == [tag * 16 + 13, |body|] + (body + rest)
            && ReadHead(s) == Ok(Head(tag, true, 5, 1))
            && |s| >= 2 + |body| && s[1] == |body|
  {
    var s := ContextString(tag, body) + rest;
    Regroup3([tag * 16 + 13, |body|], body, rest);
    ContextHead(tag, 5, [|body|] + (body + rest));
    assert s == [tag * 16 + 8 + 5] + ([|body|] + (body + rest));
  }

  lemma SliceInside(a: Bytes, b: Bytes, rest: Bytes, n: nat)
    requires n <= |b|
    ensures (a + (b + rest))[|a|..|a| + n] == b[..n]
  {
  }

  lemma ReadLongString(tag: TagNumber, body: Bytes, rest: Bytes)
    requires |body| == 254 || |body| == 255
    ensures var m := MisreadOf(body);
            ReadTag(ContextString(tag, body) + rest) ==
            Ok(Tag(tag, true, Value, Take(Drop(body + rest, m.mark), m.length), 2 + m.mark + m.length))
  {
    hide ReadHead, BigEndian, ContextString;
    var s, m := ContextString(tag, body) + rest, MisreadOf(body);
    StringHead(tag, body, rest);
    SliceInside([tag * 16 + 13, |body|], body, rest, m.mark);
    DropPrefix([tag * 16 + 13, |body|], body + rest);
    DropDrop(s, 2, m.mark);
    assert ReadLength(s, 1, 5) == Ok((m.length, 2 + m.mark));
  }

  lemma ReadShortString(tag: TagNumber, body: Bytes, rest: Bytes)
    requires 5 <= |body| <= 253
    ensures ReadTag(ContextString(tag, body) + rest) == Ok(Tag(tag, true, Value, body, 2 + |body|))
  {
    hide ReadHead, BigEndian, ContextString;
    var s := ContextString(tag, body) + rest;
    StringHead(tag, body, rest);
    DropPrefix([tag * 16 + 13, |body|], body + rest);
    assert (body + rest)[..|body|] == body;
    assert ReadLength(s, 1, 5) == Ok((|body|, 2));
  }

  /** A string reads back exactly when it has at most 253 octets. */
  lemma ReadString(tag: TagNumber, body: Bytes, rest: Bytes)
    requires |body| < 256
    ensures var size := |ContextString(tag, body)|;
            ReadTag(ContextString(tag, body) + rest) == Ok(Tag(tag, true, Value, body, size)) <==> |body| <= 253
    ensures Drop(ContextString(tag, body) + rest, |ContextString(tag, body)|) == rest
    ensures |ContextString(tag, body)| == |body| + if |body| <= 4 then 1 else 2
  {
    hide ReadTag, BigEndian;
    DropPrefix(ContextString(tag, body), rest);
    if |body| < 5 {
      ReadContext(tag, body, rest);
    } else if |body| <= 253 {
      ReadShortString(tag, body, rest);
    } else {
      ReadLongString(tag, body, rest);
    }
  }

  /** Where reading goes on after an optional text: behind a short one, and somewhere in or
      behind a long one. */
  function AfterText(text: Option<Bytes>, rest: Bytes): Bytes
    requires text.Some? ==> |text.value| <= 254
  {
    if ShortText(text) then rest
    else
      var body := [0] + text.value;
      Drop(body + rest, MisreadOf(body).mark + MisreadOf(body).length)
  }

  /** What a text is taken for: itself, or a piece of what comes after its first octets. */
  function TextRead(text: Bytes, rest: Bytes): Bytes
    requires |text| <= 254
  {
    if |text| <= 252 then text
    else
      var m := MisreadOf([0] + text);
      Drop(Take(Drop([0] + text + rest, m.mark), m.length), 1)
  }

  lemma ReadShortText(tag: TagNumber, text: Bytes, rest: Bytes)
    requires |text| <= 252
    ensures var s := OptionalText(tag, Some(text)) + rest;
            && ReadTag(s) == Ok(Tag(tag, true, Value, [0] + text, |OptionalText(tag, Some(text))|))
            && Drop(s, |OptionalText(tag, Some(text))|) == rest
            && Drop([0] + text, 1) == text
  {
    hide ReadTag, ContextString;
    ReadString(tag, [0] + text, rest);
    DropPrefix([0], text);
  }

  lemma ReadLongText(tag: TagNumber, text: Bytes, rest: Bytes)
    requires 252 < |text| <= 254
    ensures var s := OptionalText(tag, Some(text)) + rest;
            var m := MisreadOf([0] + text);
            var size := 2 + m.mark + m.length;
            && ReadTag(s) == Ok(Tag(tag, true, Value, Take(Drop([0] + text + rest, m.mark), m.length), size))
            && Drop(s, size) == Drop([0] + text + rest, m.mark + m.length)
  {
    hide ReadTag, ContextString, BigEndian, MisreadOf;
    var body := [0] + text;
    var s, m := ContextString(tag, body) + rest, MisreadOf(body);
    ReadLongString(tag, body, rest);
    StringHead(tag, body, rest);
    DropPrefix([tag * 16 + 13, |body|], body + rest);
    DropDrop(s, 2, m.mark + m.length);
  }

  /** For every text the encoder accepts: what it is taken for, and what is read next. */
  lemma ReadText(tag: TagNumber, text: Bytes, rest: Bytes)
    requires |text| <= 254
    ensures var s := OptionalText(tag, Some(text)) + rest;
            && ReadTag(s).Ok?
            && var t := ReadTag(s).value;
               && t.number == tag && t.isContext && t.kind == Value
               && Drop(s, t.size) == AfterText(Some(text), rest)
               && Drop(t.body, 1) == TextRead(text, rest)
  {
    hide ReadTag, OptionalText, MisreadOf;
    if |text| <= 252 {
      ReadShortText(tag, text, rest);
    } else {
      ReadLongText(tag, text, rest);
    }
  }

  /** A longer text leaves less than its own length of itself behind. */
  lemma LongTextShrinks(text: Bytes, rest: Bytes)
    requires 252 < |text| <= 254
    ensures |TextRead(text, rest)| < |text| + |rest| && |AfterText(Some(text), rest)| < |text| + |rest|
  {
    hide BigEndian;
  }

  /** Octets after a complete tag do not change how it reads, and a tag that ends inside
      `s` does not need them. */
  lemma ReadAligned(s: Bytes, rest: Bytes)
    ensures ReadTag(s).Ok? && ReadTag(s).value.size <= |s| ==> ReadTag(s + rest) == ReadTag(s)
    ensures ReadTag(s + rest).Ok? && ReadTag(s + rest).value.size <= |s| ==> ReadTag(s) == ReadTag(s + rest)
  {
    hide ReadLength;
    if ReadHead(s).Ok? {
      var head := ReadHead(s).value;
      assert ReadHead(s + rest) == Ok(head);
      hide ReadHead;
      LengthAligned(s, rest, head.size, head.lengthValue);
      var l := ReadLength(s + rest, head.size, head.lengthValue);
      if l.Ok? && l.value.1 + l.value.0 <= |s| {
        var (length, start) := l.value;
        assert (s + rest)[start..][..length] == s[start..][..length];
      }
    }
  }

  lemma LengthAligned(s: Bytes, rest: Bytes, position: nat, lengthValue: nat)
    ensures var l := ReadLength(s, position, lengthValue);
            l.Ok? && l.value.1 <= |s| ==> ReadLength(s + rest, position, lengthValue) == l
    ensures var l := ReadLength(s + rest, position, lengthValue);
            l.Ok? && l.value.1 <= |s| ==> ReadLength(s, position, lengthValue) == l
  {
    if position + 3 <= |s| {
      assert (s + rest)[position + 1..position + 3] == s[position + 1..position + 3];
    }
    if position + 5 <= |s| {
      assert (s + rest)[position + 1..position + 5] == s[position + 1..position + 5];
    }
  }

  // ---- Nested tags ----

  function Deeper(depth: nat, kind: Kind): nat
    requires depth > 0
  {
    match kind
    case Open => depth + 1
    case Close => depth - 1
    case Value => depth
  }

  /** From inside `depth` open tags: where the closing tag that ends the outermost one
      starts, and where it ends. */
  function FindClose(s: Bytes, depth: nat): (r: Result<(nat, nat)>)
    requires depth > 0
    ensures r.Ok? ==> r.value.0 < |s| && r.value.0 < r.value.1
    decreases |s|
  {
    var tag :- ReadTag(s);
    if Deeper(depth, tag.kind) == 0 then Ok((0, tag.size))
    else
      var (start, end) :- FindClose(Drop(s, tag.size), Deeper(depth, tag.kind));
      Ok((tag.size + start, tag.size + end))
  }

  /** `v` is a run of complete tags that closes `depth` open ones and all of its own. */
  predicate Balanced(v: Bytes, depth: nat)
    decreases |v|
  {
    if v == [] then depth == 0
    else
      && ReadTag(v).Ok?
      && var tag := ReadTag(v).value;
         && tag.size <= |v|
         && !(tag.kind == Close && depth == 0)
         && Balanced(v[tag.size..], Deeper(depth + 1, tag.kind) - 1)
  }

  /** What follows starts with a closing tag. */
  predicate Closes(tail: Bytes) {
    ReadTag(tail).Ok? && ReadTag(tail).value.kind == Close && ReadTag(tail).value.size == 1
  }

  lemma DropInside(v: Bytes, tail: Bytes, n: nat)
    requires n <= |v|
    ensures Drop(v + tail, n) == v[n..] + tail
  {
  }

  /** The walk finds the closing tag after a balanced `v`, whatever the contents of its tags
      look like and whatever follows. */
  lemma {:induction false} CloseIsFound(v: Bytes, depth: nat, tail: Bytes)
    requires Closes(tail) && Balanced(v, depth)
    ensures FindClose(v + tail, depth + 1) == Ok((|v|, |v| + 1))
    decreases |v|
  {
    hide ReadTag, Drop;
    if v == [] {
      assert v + tail == tail;
    } else {
      var tag := ReadTag(v).value;
      ReadAligned(v, tail);
      DropInside(v, tail, tag.size);
      CloseIsFound(v[tag.size..], Deeper(depth + 1, tag.kind) - 1, tail);
    }
  }

  lemma TakeStep(s: Bytes, size: nat, n: nat)
    requires size + n <= |s|
    ensures Take(s, size + n)[size..] == Take(Drop(s, size), n)
    ensures Take(s, size + n) + Drop(s, size + n) == s
  {
  }

  /** What the walk passes over is always balanced, in any octets. */
  lemma {:induction false} FoundIsBalanced(s: Bytes, depth: nat)
    requires FindClose(s, depth + 1).Ok?
    ensures Balanced(Take(s, FindClose(s, depth + 1).value.0), depth)
    decreases |s|
  {
    hide ReadTag, Take, Drop;
    var n := FindClose(s, depth + 1).value.0;
    var tag := ReadTag(s).value;
    if n > 0 {
      TakeStep(s, tag.size, n - tag.size);
      ReadAligned(Take(s, n), Drop(s, n));
      FoundIsBalanced(Drop(s, tag.size), Deeper(depth + 1, tag.kind) - 1);
    }
  }

  /** `_constructed_body`, `_constructed_end` and `_skip_constructed`: `position` is just after an
      opening tag. */
  method ConstructedBody(octets: Bytes, position: nat) returns (r: Result<(Bytes, nat)>)
    ensures r == var s := Drop(octets, position);
                 match FindClose(s, 1)
                 case Ok((start, end)) => Ok((Take(s, start), position + end))
                 case Truncated => Truncated
                 case ValueError => ValueError
  {
    hide ReadTag;
    var depth := 1;
    var at := position;
    ghost var whole := FindClose(Drop(octets, position), 1);
    while true
      invariant position <= at && 1 <= depth
      invariant match FindClose(Drop(octets, at), depth)
                case Ok((start, end)) => whole == Ok((at - position + start, at - position + end))
                case Truncated => whole == Truncated
                case ValueError => whole == ValueError
      decreases if at <= |octets| then |octets| - at + 1 else 0
    {
      var tag := ReadTag(Drop(octets, at));
      if tag.IsFailure() { return tag.PropagateFailure(); }
      var tagStart := at;
      at := at + tag.value.size;
      DropDrop(octets, tagStart, tag.value.size);
      depth := Deeper(depth, tag.value.kind);
      if depth == 0 {
        assert octets[position..tagStart] == Take(Drop(octets, position), tagStart - position);
        return Ok((octets[position..tagStart], at));
      }
    }
  }
}
