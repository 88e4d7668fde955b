/** ReadAccessSpecifications: what a ReadPropertyMultiple request asks for, object by
    object, and the server's reading of it; and lists of application-tagged elements. */
module AccessSpecifications {
  import opened Octets
  import opened Tags
  import opened PropertyServices

  datatype Spec = Spec(id: ObjectId, references: seq<(Unsigned32, Option<Unsigned32>)>)

  /** [0] property and, if given, [1] array index. */
  function ReferencesOctets(references: seq<(Unsigned32, Option<Unsigned32>)>): Bytes {
    if references == [] then []
    else
      ContextUnsigned(0, references[0].0) +
      (Optional(1, references[0].1) + ReferencesOctets(references[1..]))
  }

  predicate AllEncodable(specs: seq<Spec>) {
    forall i :: 0 <= i < |specs| ==> Encodable(specs[i].id)
  }

  function SpecsOctets(specs: seq<Spec>): Bytes
    requires AllEncodable(specs)
  {
    if specs == [] then []
    else
      ContextObjectId(0, specs[0].id) +
      (Opening(1) + (ReferencesOctets(specs[0].references) + (Closing(1) + SpecsOctets(specs[1..]))))
  }

  type Members = map<ObjectId, seq<nat>>

  /** One tag: an object outside a list, a property inside one, the end of a list. */
  function Step(members: Members, current: Option<ObjectId>, tag: Tag): (Members, Option<ObjectId>)
    requires current.Some? ==> current.value in members
  {
    if tag.kind == Value && tag.isContext && tag.number == 0 && |tag.body| == 4 && current.None? then
      (members[UnpackObjectId(tag.body) := []], Some(UnpackObjectId(tag.body)))
    else if tag.kind == Value && tag.isContext && tag.number == 0 && current.Some? then
      (members[current.value := members[current.value] + [BigEndian(tag.body)]], current)
    else if tag.kind == Close && tag.number == 1 then (members, None)
    else (members, current)
  }

  function ParseSpecs(s: Bytes, members: Members, current: Option<ObjectId>): Result<Members>
    requires current.Some? ==> current.value in members
    decreases |s|
  {
    if s == [] then Ok(members)
    else
      var tag :- ReadTag(s);
      var (members', current') := Step(members, current, tag);
      ParseSpecs(Drop(s, tag.size), members', current')
  }

  function Properties(references: seq<(Unsigned32, Option<Unsigned32>)>): seq<nat> {
    seq(|references|, i requires 0 <= i < |references| => references[i].0)
  }

  /** Each object with its property list; a repeated object keeps its last list. */
  function Asked(members: Members, specs: seq<Spec>): Members
    decreases |specs|
  {
    if specs == [] then members
    else Asked(members[specs[0].id := Properties(specs[0].references)], specs[1..])
  }

  lemma {:induction false} StepPrimitive(tag: TagNumber, body: Bytes, rest: Bytes, members: Members,
      current: Option<ObjectId>)
    requires |body| <= 4 && (current.Some? ==> current.value in members)
    ensures var (members', current') := Step(members, current, Tag(tag, true, Value, body, 1 + |body|));
            ParseSpecs(Context(tag, body) + rest, members, current) == ParseSpecs(rest, members', current')
  {
    hide ReadTag, Step;
    ReadContext(tag, body, rest);
  }

  lemma {:induction false} StepObject(id: ObjectId, rest: Bytes, members: Members)
    requires Encodable(id)
    ensures ParseSpecs(ContextObjectId(0, id) + (Opening(1) + rest), members, None) ==
            ParseSpecs(rest, members[id := []], Some(id))
  {
    hide ReadTag, Context, UnpackObjectId;
    StepPrimitive(0, ObjectIdOctets(id), Opening(1) + rest, members, None);
    ObjectIdRoundTrip(id);
    ReadOpening(1, rest);
  }

  lemma {:induction false} StepReference(property: Unsigned32, index: Option<Unsigned32>, rest: Bytes,
      members: Members, id: ObjectId)
    requires id in members
    ensures ParseSpecs(ContextUnsigned(0, property) + (Optional(1, index) + rest), members, Some(id)) ==
            ParseSpecs(rest, members[id := members[id] + [property]], Some(id))
  {
    hide ReadTag, Context, ParseSpecs;
    var after := members[id := members[id] + [property]];
    StepPrimitive(0, UnsignedOctets(property), Optional(1, index) + rest, members, Some(id));
    if index.Some? {
      StepPrimitive(1, UnsignedOctets(index.value), rest, after, Some(id));
    } else {
      assert Optional(1, index) + rest == rest;
    }
  }

  lemma {:induction false} StepReferences(references: seq<(Unsigned32, Option<Unsigned32>)>, rest: Bytes,
                                          members: Members, id: ObjectId)
    requires id in members
    ensures ParseSpecs(ReferencesOctets(references) + rest, members, Some(id)) ==
            ParseSpecs(rest, members[id := members[id] + Properties(references)], Some(id))
    decreases |references|
  {
    hide ParseSpecs, ContextUnsigned, Optional;
    if references == [] {
      assert ReferencesOctets(references) + rest == rest;
      assert members[id] + Properties(references) == members[id];
      assert members[id := members[id]] == members;
    } else {
      var (property, index) := references[0];
      var tail := ReferencesOctets(references[1..]);
      Regroup4(ContextUnsigned(0, property), Optional(1, index), tail, rest);
      Regroup3(ContextUnsigned(0, property), Optional(1, index), tail);
      StepReference(property, index, tail + rest, members, id);
      var after := members[id := members[id] + [property]];
      StepReferences(references[1..], rest, after, id);
      assert members[id] + [property] + Properties(references[1..]) == members[id] + Properties(references);
      assert after[id := after[id] + Properties(references[1..])] ==
          members[id := members[id] + Properties(references)];
    }
  }

  /** The server recovers, for every object a request names, its property list. */
  lemma {:induction false} AccessSpecificationsRoundTrip(specs: seq<Spec>, members: Members)
    requires AllEncodable(specs)
    ensures ParseSpecs(SpecsOctets(specs), members, None) == Ok(Asked(members, specs))
    decreases |specs|
  {
    hide ReadTag, ContextObjectId, ReferencesOctets, Opening, Closing;
    if specs != [] {
      var spec, rest := specs[0], SpecsOctets(specs[1..]);
      StepObject(spec.id, ReferencesOctets(spec.references) + (Closing(1) + rest), members);
      StepReferences(spec.references, Closing(1) + rest, members[spec.id := []], spec.id);
      ReadClosing(1, rest);
      assert [] + Properties(spec.references) == Properties(spec.references);
      assert members[spec.id := []][spec.id := Properties(spec.references)] ==
          members[spec.id := Properties(spec.references)];
      AccessSpecificationsRoundTrip(specs[1..], members[spec.id := Properties(spec.references)]);
    }
  }

  /** A whole ReadPropertyMultiple request, read from its parameters as the server does. */
  lemma {:induction false} ReadPropertyMultipleRequestRoundTrip(invokeId: byte, specs: seq<Spec>)
    requires AllEncodable(specs)
    ensures ParseSpecs(Drop(ConfirmedRequest(invokeId, 14, SpecsOctets(specs)), 4), map[], None) ==
            Ok(Asked(map[], specs))
  {
    hide ParseSpecs, SpecsOctets;
    DropPrefix([0x00, 0x05, invokeId, 14], SpecsOctets(specs));
    AccessSpecificationsRoundTrip(specs, map[]);
  }

  /** Over distinct objects the dictionary is exactly the request. */
  lemma {:induction false} AskedExactly(members: Members, specs: seq<Spec>, k: nat)
    requires forall i, j :: 0 <= i < j < |specs| ==> specs[i].id != specs[j].id
    requires k < |specs|
    ensures Asked(members, specs).Keys == members.Keys + set i | 0 <= i < |specs| :: specs[i].id
    ensures Asked(members, specs)[specs[k].id] == Properties(specs[k].references)
    decreases |specs|
  {
    var after := members[specs[0].id := Properties(specs[0].references)];
    if |specs| > 1 {
      AskedExactly(after, specs[1..], if k == 0 then 0 else k - 1);
      if k == 0 {
        AskedKeeps(after, specs[1..], specs[0].id);
      }
      assert (set i | 0 <= i < |specs| :: specs[i].id) ==
          {specs[0].id} + set i | 0 <= i < |specs[1..]| :: specs[1..][i].id;
    } else {
      assert (set i | 0 <= i < |specs| :: specs[i].id) == {specs[0].id};
    }
  }

  lemma {:induction false} AskedKeeps(members: Members, specs: seq<Spec>, id: ObjectId)
    requires id in members && forall i :: 0 <= i < |specs| ==> specs[i].id != id
    ensures id in Asked(members, specs) && Asked(members, specs)[id] == members[id]
    decreases |specs|
  {
    if specs != [] {
      AskedKeeps(members[specs[0].id := Properties(specs[0].references)], specs[1..], id);
    }
  }

  /** `read_access_specifications` */
  method ReadAccessSpecifications(value: Bytes) returns (r: Result<Members>)
    ensures r == ParseSpecs(value, map[], None)
  {
    hide ReadTag, BigEndian, UnpackObjectId;
    var members: Members := map[];
    var current: Option<ObjectId> := None;
    var position := 0;
    assert Drop(value, 0) == value;
    while position < |value|
      invariant current.Some? ==> current.value in members
      invariant ParseSpecs(Drop(value, position), members, current) == ParseSpecs(value, map[], None)
      decreases |value| - position
    {
      var tag, after := Next(value, position);
      if tag.IsFailure() { return tag.PropagateFailure(); }
      var t := tag.value;
      if t.kind == Value && t.isContext && t.number == 0 && |t.body| == 4 && current.None? {
        current := Some(UnpackObjectId(t.body));
        members := members[current.value := []];
      } else if t.kind == Value && t.isContext && t.number == 0 && current.Some? {
        members := members[current.value := members[current.value] + [BigEndian(t.body)]];
      } else if t.kind == Close && t.number == 1 {
        current := None;
      }
      position := after;
    }
    return Ok(members);
  }

  // ---- Elements of an array value ----

  function Concat(elements: seq<Bytes>): Bytes {
    if elements == [] then [] else elements[0] + Concat(elements[1..])
  }

  /** One octet string per tag. */
  function Elements(s: Bytes): Result<seq<Bytes>>
    decreases |s|
  {
    if s == [] then Ok([])
    else
      var tag :- ReadTag(s);
      Prefixed([Take(s, tag.size)], Elements(Drop(s, tag.size)))
  }

  predicate OneTag(e: Bytes) {
    ReadTag(e).Ok? && ReadTag(e).value.size == |e|
  }

  /** Any list of single tags is split back into its elements. */
  lemma {:induction false} ElementsOfConcat(elements: seq<Bytes>)
    requires forall i :: 0 <= i < |elements| ==> OneTag(elements[i])
    ensures Elements(Concat(elements)) == Ok(elements)
    decreases |elements|
  {
    hide ReadTag;
    if elements != [] {
      var e, rest := elements[0], Concat(elements[1..]);
      assert OneTag(e);
      ReadAligned(e, rest);
      DropPrefix(e, rest);
      assert Take(e + rest, |e|) == e;
      assert [e] + elements[1..] == elements;
      ElementsOfConcat(elements[1..]);
    }
  }

  lemma TakeDrop(s: Bytes, n: nat)
    ensures Take(s, n) + Drop(s, n) == s
  {
  }

  /** Whatever is split, the pieces in order are the octets that went in. */
  lemma {:induction false} ConcatOfElements(s: Bytes)
    requires Elements(s).Ok?
    ensures Concat(Elements(s).value) == s
    decreases |s|
  {
    hide ReadTag, Take, Drop;
    if s != [] {
      var size := ReadTag(s).value.size;
      var rest := Elements(Drop(s, size)).value;
      ConcatOfElements(Drop(s, size));
      assert ([Take(s, size)] + rest)[1..] == rest;
      TakeDrop(s, size);
    }
  }

  /** `application_elements` */
  method ApplicationElements(octets: Bytes) returns (r: Result<seq<Bytes>>)
    ensures r == Elements(octets)
  {
    hide ReadTag, Take;
    var elements: seq<Bytes> := [];
    var position := 0;
    assert Drop(octets, 0) == octets;
    PrefixedNil(Elements(octets));
    while position < |octets|
      invariant Prefixed(elements, Elements(Drop(octets, position))) == Elements(octets)
      decreases |octets| - position
    {
      var tag, after := Next(octets, position);
      if tag.IsFailure() { return tag.PropagateFailure(); }
      var element := Take(Drop(octets, position), tag.value.size);
      PrefixedTwice(elements, [element], Elements(Drop(octets, after)));
      elements := elements + [element];
      position := after;
    }
    assert elements + [] == elements;
    return Ok(elements);
  }

  // ---- What the reader passes over ----

  /** Inside a list or not: application tags, context primitives other than [0], and opening and
      closing tags other than the [1] that ends a list, change nothing. */
  lemma {:induction false} PassedOver(tag: TagNumber, number: TagNumber, body: Bytes, rest: Bytes, members: Members,
      current: Option<ObjectId>)
    requires |body| <= 4 && number != 1 && (current.Some? ==> current.value in members)
    ensures ParseSpecs(Opening(tag) + rest, members, current) == ParseSpecs(rest, members, current)
    ensures ParseSpecs(Closing(tag) + rest, members, current) ==
            ParseSpecs(rest, members, if tag == 1 then None else current)
    ensures ParseSpecs(Application(number, body) + rest, members, current) == ParseSpecs(rest, members, current)
    ensures tag != 0 ==> ParseSpecs(Context(tag, body) + rest, members, current) == ParseSpecs(rest, members, current)
  {
    hide ReadTag, Opening, Closing, Application, Context;
    ReadContext(tag, body, rest);
    ReadOpening(tag, rest);
    ReadClosing(tag, rest);
    ReadApplication(number, body, rest);
  }
}
