/** Whole exchanges between the client and the simulated server: what the client reads is what
    the server holds, restricted to what was asked for. */
module Exchange {
  import opened Octets
  import opened Tags
  import opened PropertyServices
  import opened PropertyMultiple
  import AccessSpecifications
  import PeerServer
  import Priority

  type Objects = map<ObjectId, map<nat, Bytes>>

  type Spec = AccessSpecifications.Spec

  type Members = AccessSpecifications.Members

  // ---- The server's side ----

  /** The octets served for a property, if there is one. */
  function Served(objects: Objects, id: ObjectId, property: nat): Option<Bytes> {
    if id in objects && property in objects[id] then Some(objects[id][property]) else None
  }

  predicate Numbers(properties: seq<nat>) {
    forall i :: 0 <= i < |properties| ==> properties[i] < 0x1_0000_0000
  }

  /** What an answer can be encoded for. */
  predicate Answerable(asked: Members) {
    forall id :: id in asked ==> Encodable(id) && Numbers(asked[id])
  }

  function EntriesFor(objects: Objects, id: ObjectId, properties: seq<nat>): seq<Entry>
    requires Numbers(properties)
  {
    seq(|properties|, i requires 0 <= i < |properties| =>
      Entry(properties[i], None, Served(objects, id, properties[i])))
  }

  /** One result for each object, in the order of the server's dictionary. */
  function ResultsFor(objects: Objects, asked: Members, order: seq<ObjectId>): (rs: seq<ObjectResult>)
    requires Answerable(asked) && forall i :: 0 <= i < |order| ==> order[i] in asked
    ensures PropertyMultiple.AllEncodable(rs)
  {
    seq(|order|, i requires 0 <= i < |order| =>
      ObjectResult(order[i], EntriesFor(objects, order[i], asked[order[i]])))
  }

  /** A dictionary is gone through in some order, each key once. */
  predicate Enumerates(order: seq<ObjectId>, keys: set<ObjectId>) {
    && (forall i, j :: 0 <= i < j < |order| ==> order[i] != order[j])
    && (forall i :: 0 <= i < |order| ==> order[i] in keys)
    && (forall id :: id in keys ==> id in order)
  }

  /** `_read_multiple`: the access specifications of the request, each property looked up. */
  function ReadMultiple(objects: Objects, request: Bytes, order: seq<ObjectId>): Result<Bytes>
    requires |request| >= 4
  {
    var asked :- AccessSpecifications.ParseSpecs(Drop(request, 4), map[], None);
    if Answerable(asked) && Enumerates(order, asked.Keys)
    then Ok(ReadPropertyMultipleAck(request[2], ResultsFor(objects, asked, order)))
    else ValueError
  }

  // ---- What the client should read ----

  function AnswerFor(objects: Objects, id: ObjectId, property: nat): Answer {
    match Served(objects, id, property)
    case None => Error([ERROR_CLASS_PROPERTY, ERROR_CODE_UNKNOWN_PROPERTY])
    case Some(v) => Octets(v)
  }

  function Answered(objects: Objects, id: ObjectId, properties: seq<nat>): Answers {
    map i | 0 <= i < |properties| :: Key(Some(properties[i]), None) := AnswerFor(objects, id, properties[i])
  }

  /** The server's objects restricted to what was asked for. */
  function Restricted(objects: Objects, asked: Members): map<ObjectId, Answers> {
    map id | id in asked :: Answered(objects, id, asked[id])
  }

  /** Every value that is asked for and served is balanced. */
  predicate ServedBalanced(objects: Objects, asked: Members) {
    forall id, i :: id in asked && 0 <= i < |asked[id]| && Served(objects, id, asked[id][i]).Some? ==>
      Balanced(Served(objects, id, asked[id][i]).value, 0)
  }

  // ---- The answer means the restriction ----

  lemma UpdateThenAdd<K, V>(m: map<K, V>, k: K, v: V, n: map<K, V>)
    ensures m[k := v] + n == m + (map[k := v] + n)
  {
  }

  lemma AddNothing<K, V>(m: map<K, V>)
    ensures m + map[] == m && map[] + m == m
  {
  }

  lemma EntriesStep(objects: Objects, id: ObjectId, properties: seq<nat>)
    requires properties != [] && Numbers(properties)
    ensures var es := EntriesFor(objects, id, properties);
            && es != [] && es[0] == Entry(properties[0], None, Served(objects, id, properties[0]))
            && es[1..] == EntriesFor(objects, id, properties[1..])
  {
    hide Served;
  }

  lemma {:induction false} AddAnswers(m: Answers, objects: Objects, id: ObjectId, properties: seq<nat>)
    requires Numbers(properties)
    ensures Add(m, EntriesFor(objects, id, properties)) == m + Answered(objects, id, properties)
    decreases |properties|
  {
    hide Served, AnswerFor, AnswerOf, EntriesFor, Answered;
    if properties == [] {
      NoneAnswered(objects, id);
      AddNothing(m);
    } else {
      var rest := properties[1..];
      var key, answer := Key(Some(properties[0]), None), AnswerFor(objects, id, properties[0]);
      EntriesStep(objects, id, properties);
      SameAnswer(objects, id, properties[0]);
      AddAnswers(m[key := answer], objects, id, rest);
      AnsweredStep(objects, id, properties);
      UpdateThenAdd(m, key, answer, Answered(objects, id, rest));
    }
  }

  lemma NoneAnswered(objects: Objects, id: ObjectId)
    ensures EntriesFor(objects, id, []) == [] && Answered(objects, id, []) == map[]
  {
  }

  lemma SameAnswer(objects: Objects, id: ObjectId, property: Unsigned32)
    ensures AnswerOf(Entry(property, None, Served(objects, id, property))) == AnswerFor(objects, id, property)
  {
  }

  lemma AnsweredStep(objects: Objects, id: ObjectId, properties: seq<nat>)
    requires properties != []
    ensures Answered(objects, id, properties) ==
            map[Key(Some(properties[0]), None) := AnswerFor(objects, id, properties[0])]
            + Answered(objects, id, properties[1..])
  {
    hide AnswerFor;
    assert forall i :: 0 < i < |properties| ==> properties[i] == properties[1..][i - 1];
    assert forall i :: 0 <= i < |properties[1..]| ==> properties[1..][i] == properties[i + 1];
  }

  function OverOrder(objects: Objects, asked: Members, order: seq<ObjectId>): map<ObjectId, Answers>
    requires forall i :: 0 <= i < |order| ==> order[i] in asked
  {
    map id | id in order :: Answered(objects, id, asked[id])
  }

  lemma OverOrderStep(objects: Objects, asked: Members, order: seq<ObjectId>)
    requires order != [] && forall i :: 0 <= i < |order| ==> order[i] in asked
    ensures OverOrder(objects, asked, order) ==
            map[order[0] := Answered(objects, order[0], asked[order[0]])] + OverOrder(objects, asked, order[1..])
  {
    hide Answered;
    assert order == [order[0]] + order[1..];
  }

  lemma ResultsStep(objects: Objects, asked: Members, order: seq<ObjectId>)
    requires Answerable(asked) && order != [] && forall i :: 0 <= i < |order| ==> order[i] in asked
    ensures var rs := ResultsFor(objects, asked, order);
            && rs != [] && rs[0] == ObjectResult(order[0], EntriesFor(objects, order[0], asked[order[0]]))
            && rs[1..] == ResultsFor(objects, asked, order[1..])
  {
    hide EntriesFor;
  }

  lemma NoResults(objects: Objects, asked: Members)
    requires Answerable(asked)
    ensures ResultsFor(objects, asked, []) == [] && OverOrder(objects, asked, []) == map[]
  {
  }

  lemma {:induction false} MergeAnswers(results: map<ObjectId, Answers>, objects: Objects, asked: Members,
                                        order: seq<ObjectId>)
    requires Answerable(asked) && forall i :: 0 <= i < |order| ==> order[i] in asked && order[i] !in results
    requires forall i, j :: 0 <= i < j < |order| ==> order[i] != order[j]
    ensures Merge(results, ResultsFor(objects, asked, order)) == results + OverOrder(objects, asked, order)
    decreases |order|
  {
    hide Answered, EntriesFor, Add, OverOrder, ResultsFor;
    if order == [] {
      NoResults(objects, asked);
      AddNothing(results);
    } else {
      var id := order[0];
      var answers := Answered(objects, id, asked[id]);
      ResultsStep(objects, asked, order);
      AddAnswers(map[], objects, id, asked[id]);
      AddNothing(answers);
      MergeAnswers(results[id := answers], objects, asked, order[1..]);
      OverOrderStep(objects, asked, order);
      UpdateThenAdd(results, id, answers, OverOrder(objects, asked, order[1..]));
    }
  }

  lemma OrderDoesNotMatter(objects: Objects, asked: Members, order: seq<ObjectId>)
    requires Enumerates(order, asked.Keys)
    ensures OverOrder(objects, asked, order) == Restricted(objects, asked)
  {
    hide Answered;
  }

  lemma EntriesBalanced(objects: Objects, asked: Members, id: ObjectId)
    requires ServedBalanced(objects, asked) && Answerable(asked) && id in asked
    ensures AllBalanced(EntriesFor(objects, id, asked[id]))
  {
    hide Balanced, Served;
  }

  lemma {:induction false} RestrictedBalanced(objects: Objects, asked: Members)
    requires AllStoredBalanced(Restricted(objects, asked))
    ensures ServedBalanced(objects, asked)
  {
    hide Balanced;
    var results := Restricted(objects, asked);
    forall id, i | id in asked && 0 <= i < |asked[id]| && Served(objects, id, asked[id][i]).Some?
      ensures Balanced(Served(objects, id, asked[id][i]).value, 0)
    {
      var key := Key(Some(asked[id][i]), None);
      assert key in results[id] && results[id][key] == AnswerFor(objects, id, asked[id][i]);
    }
  }

  /** The client's parse of the server's answer is the restriction of the server's dictionary to
      what was asked for, in whatever order it is gone through, exactly when every value asked
      for is balanced. */
  lemma {:induction false} AnswerReads(objects: Objects, invokeId: byte, asked: Members, order: seq<ObjectId>)
    requires Answerable(asked) && Enumerates(order, asked.Keys)
    ensures ParseAck(ReadPropertyMultipleAck(invokeId, ResultsFor(objects, asked, order)))
            == Ok(Some(Restricted(objects, asked)))
            <==> ServedBalanced(objects, asked)
  {
    hide ParseResults, ResultsOctets, Balanced, Merge, Restricted, OverOrder, ServedBalanced, EntriesFor, AllBalanced;
    var rs := ResultsFor(objects, asked, order);
    DropPrefix([0x30, invokeId, READ_PROPERTY_MULTIPLE], ResultsOctets(rs));
    MergeAnswers(map[], objects, asked, order);
    OrderDoesNotMatter(objects, asked, order);
    assert map[] + OverOrder(objects, asked, order) == OverOrder(objects, asked, order);
    if ServedBalanced(objects, asked) {
      forall i | 0 <= i < |rs|
        ensures AllBalanced(rs[i].entries)
      {
        EntriesBalanced(objects, asked, order[i]);
      }
      StepResults(rs, Start());
    } else if ParseResults(ResultsOctets(rs), Start()) == Ok(Restricted(objects, asked)) {
      StoresBalanced(ResultsOctets(rs), Start());
      RestrictedBalanced(objects, asked);
    }
  }

  lemma {:induction false} AskedIsAnswerable(members: Members, specs: seq<Spec>)
    requires AccessSpecifications.AllEncodable(specs) && Answerable(members)
    ensures Answerable(AccessSpecifications.Asked(members, specs))
    decreases |specs|
  {
    if specs != [] {
      var properties := AccessSpecifications.Properties(specs[0].references);
      AskedIsAnswerable(members[specs[0].id := properties], specs[1..]);
    }
  }

  function Request(invokeId: byte, specs: seq<Spec>): (r: Bytes)
    requires AccessSpecifications.AllEncodable(specs)
    ensures |r| >= 4 && r[2] == invokeId
  {
    ConfirmedRequest(invokeId, READ_PROPERTY_MULTIPLE, AccessSpecifications.SpecsOctets(specs))
  }

  /** The whole exchange, for any request, any server dictionary and any order in which the
      server goes through the request: it answers, and the client reads exactly the server's
      values for what was asked, with an error for each property it does not have, if and only if
      every value asked for is balanced. */
  lemma {:induction false} ReadMultipleExchange(objects: Objects, invokeId: byte, specs: seq<Spec>,
      order: seq<ObjectId>)
    requires AccessSpecifications.AllEncodable(specs)
    requires Enumerates(order, AccessSpecifications.Asked(map[], specs).Keys)
    ensures var asked := AccessSpecifications.Asked(map[], specs);
            var reply := ReadMultiple(objects, Request(invokeId, specs), order);
            && reply.Ok? && |reply.value| >= 3 && reply.value[..3] == [0x30, invokeId, 0x0E]
            && (ParseAck(reply.value) == Ok(Some(Restricted(objects, asked))) <==> ServedBalanced(objects, asked))
  {
    hide AccessSpecifications.ParseSpecs, AccessSpecifications.SpecsOctets, AccessSpecifications.Asked,
         ParseAck, ReadPropertyMultipleAck, ResultsFor, Restricted, ServedBalanced, Enumerates, Answerable;
    AccessSpecifications.ReadPropertyMultipleRequestRoundTrip(invokeId, specs);
    NothingAsked();
    AskedIsAnswerable(map[], specs);
    AckHead(invokeId, objects, AccessSpecifications.Asked(map[], specs), order);
    AnswerReads(objects, invokeId, AccessSpecifications.Asked(map[], specs), order);
  }

  lemma AckHead(invokeId: byte, objects: Objects, asked: Members, order: seq<ObjectId>)
    requires Answerable(asked) && Enumerates(order, asked.Keys)
    ensures var ack := ReadPropertyMultipleAck(invokeId, ResultsFor(objects, asked, order));
            |ack| >= 3 && ack[..3] == [0x30, invokeId, 0x0E]
  {
    hide ResultsOctets, ResultsFor;
  }

  lemma NothingAsked()
    ensures Answerable(map[])
  {
  }

  /** Over distinct objects: each reference of the request finds the server's own value. */
  lemma {:induction false} EachReferenceAnswered(objects: Objects, specs: seq<Spec>, k: nat, j: nat)
    requires forall a, b :: 0 <= a < b < |specs| ==> specs[a].id != specs[b].id
    requires k < |specs| && j < |specs[k].references|
    ensures var property := specs[k].references[j].0;
            var read := Restricted(objects, AccessSpecifications.Asked(map[], specs));
            Lookup(read, specs[k].id, Key(Some(property), None))
            == Some(AnswerFor(objects, specs[k].id, property))
  {
    hide AccessSpecifications.Asked, AnswerFor;
    AccessSpecifications.AskedExactly(map[], specs, k);
    var asked, id := AccessSpecifications.Asked(map[], specs), specs[k].id;
    assert id in asked;
    assert asked[id][j] == specs[k].references[j].0;
  }

  // ---- A write and a later read ----

  /** What the server holds for a property after a write it took. */
  function Holds(srv: PeerServer.Server, w: Parsed): Bytes
    requires PeerServer.Valid(srv) && w.id in srv.objects && w.property in srv.objects[w.id]
  {
    if PeerServer.Commanded(srv, w) then Priority.Resolve(srv.slots[w.id], srv.defaults[w.id]) else w.value
  }

  /** The server takes the write: nothing refuses it, it is not a NULL that is absorbed, and its
      priority has a slot. */
  predicate Takes(srv: PeerServer.Server, w: Parsed) {
    && PeerServer.IsNull(w.value).Ok? && !PeerServer.Absorbed(srv, w, PeerServer.IsNull(w.value).value)
    && PeerServer.Refusal(srv, w, None) == None && PeerServer.SlotIndex(w) < Priority.SLOTS
  }

  lemma TakenWrite(srv: PeerServer.Server, w: Parsed)
    requires PeerServer.Valid(srv) && Takes(srv, w)
    ensures var (after, reply) := PeerServer.Written(srv, w, None);
            && reply == PeerServer.Ack && PeerServer.Valid(after)
            && w.id in after.objects && w.property in after.objects[w.id]
            && after.objects[w.id][w.property] == Holds(after, w)
  {
    hide ReadTag, Priority.Resolve;
  }

  /** A WriteProperty the server parses and takes, then a ReadPropertyMultiple of the same
      property: the client reads the value it wrote, or for a commanded property the value the
      priority array resolves to with that command or relinquish in it. */
  lemma {:induction false} WriteThenRead(srv: PeerServer.Server, invokeId: byte, w: PropertyServices.Request)
    requires PeerServer.Valid(srv) && Encodable(w.id) && Balanced(w.value, 0) && Takes(srv, Wanted(w))
    ensures ParseWritePropertyRequest(WritePropertyRequest(invokeId, w)) == Ok(Some(Wanted(w)))
    ensures var p := Wanted(w);
            var (after, reply) := PeerServer.Written(srv, p, None);
            var specs := [AccessSpecifications.Spec(w.id, [(w.property, None)])];
            && reply == PeerServer.Ack && PeerServer.Valid(after)
            && p.id in after.objects && p.property in after.objects[p.id]
            && var read := ReadMultiple(after.objects, Request(invokeId, specs), [w.id]);
               && read.Ok?
               && (Balanced(Holds(after, p), 0) ==>
                     ParseAck(read.value) ==
                     Ok(Some(map[w.id := map[Key(Some(w.property), None) := Octets(Holds(after, p))]])))
  {
    hide Balanced, PeerServer.Valid, PeerServer.Written, Takes, Holds, ReadMultiple, ParseAck, Request, Restricted,
         ServedBalanced, ParseWritePropertyRequest, WritePropertyRequest;
    WritePropertyRoundTrip(invokeId, w);
    var p := Wanted(w);
    TakenWrite(srv, p);
    var after := PeerServer.Written(srv, p, None).0;
    var spec := AccessSpecifications.Spec(w.id, [(w.property, None)]);
    AskedOne(spec);
    ReadMultipleExchange(after.objects, invokeId, [spec], [w.id]);
    RestrictedOne(after.objects, w.id, w.property, Holds(after, p));
  }

  lemma AskedOne(spec: Spec)
    requires |spec.references| == 1
    ensures AccessSpecifications.Asked(map[], [spec]) == map[spec.id := [spec.references[0].0]]
    ensures Enumerates([spec.id], AccessSpecifications.Asked(map[], [spec]).Keys)
  {
    assert [spec][1..] == [];
    assert AccessSpecifications.Properties(spec.references) == [spec.references[0].0];
  }

  lemma RestrictedOne(objects: Objects, id: ObjectId, property: nat, v: Bytes)
    requires id in objects && property in objects[id] && objects[id][property] == v
    ensures Restricted(objects, map[id := [property]]) == map[id := map[Key(Some(property), None) := Octets(v)]]
    ensures Balanced(v, 0) ==> ServedBalanced(objects, map[id := [property]])
  {
    hide Balanced;
    AnsweredStep(objects, id, [property]);
    assert [property][1..] == [];
    NoneAnswered(objects, id);
    AddNothing(map[Key(Some(property), None) := Octets(v)]);
  }

  // ---- One element of an array ----

  const INVALID_ARRAY_INDEX: Unsigned32 := 42

  /** The number of elements for index 0, the element, or an error past the last. */
  function ElementAnswer(invokeId: byte, id: ObjectId, property: Unsigned32, index: Unsigned32,
                         elements: seq<Bytes>): Bytes
    requires Encodable(id) && |elements| < 0x1_0000_0000
  {
    if index == 0 then ReadPropertyAck(invokeId, id, property, Some(0), ApplicationUnsigned(|elements|))
    else if index <= |elements| then ReadPropertyAck(invokeId, id, property, Some(index), elements[index - 1])
    else ErrorApdu(invokeId, READ_PROPERTY, ERROR_CLASS_PROPERTY, INVALID_ARRAY_INDEX)
  }

  /** What can be put in an answer. */
  predicate Echoes(id: ObjectId, property: nat, index: nat) {
    Encodable(id) && property < 0x1_0000_0000 && index < 0x1_0000_0000
  }

  /** `_read_special` for a request with an array index; None when the server has no such
      property. */
  function ReadElement(objects: Objects, request: Bytes): Result<Option<Bytes>>
    requires |request| >= 4
  {
    match ParseReadPropertyRequest(request)
    case Ok(Some((id, property, Some(index)))) =>
      if Served(objects, id, property).None? then Ok(None)
      else
        var elements :- AccessSpecifications.Elements(Served(objects, id, property).value);
        if |elements| < 0x1_0000_0000 && Echoes(id, property, index)
        then Ok(Some(ElementAnswer(request[2], id, property, index, elements)))
        else ValueError
    case _ => Ok(None)
  }

  lemma UnsignedBalanced(v: Unsigned32)
    ensures Balanced(ApplicationUnsigned(v), 0)
  {
    hide BigEndian, UnsignedOctets;
    var body := UnsignedOctets(v);
    var s := ApplicationUnsigned(v);
    assert ReadHead(s) == Ok(Head(2, false, |body|, 1));
    assert ReadTag(s).value.size == |s|;
    assert s[|s|..] == [];
  }

  predicate IsPrimitive(e: Bytes) {
    ReadTag(e).Ok? && ReadTag(e).value.kind == Value
  }

  /** A single tag is balanced exactly when it is not an opening or closing tag. */
  lemma OneTagBalanced(e: Bytes)
    requires AccessSpecifications.OneTag(e)
    ensures Balanced(e, 0) <==> IsPrimitive(e)
  {
    hide ReadTag;
    assert e[|e|..] == [];
  }

  lemma {:induction false} NoValueIn(v: Unsigned32, rest: Bytes)
    requires v < 0x100
    ensures FindValue(ApplicationEnumerated(v) + rest) == FindValue(rest)
  {
    hide ReadTag, ApplicationEnumerated;
    EnumeratedReads(v, rest);
  }

  lemma {:induction false} ErrorHasNoValue(invokeId: byte)
    ensures ReadPropertyValue(ErrorApdu(invokeId, READ_PROPERTY, ERROR_CLASS_PROPERTY, INVALID_ARRAY_INDEX)) == Ok(None)
  {
    hide ApplicationEnumerated, FindValue;
    var a, b := ApplicationEnumerated(ERROR_CLASS_PROPERTY), ApplicationEnumerated(INVALID_ARRAY_INDEX);
    DropPrefix([0x50, invokeId, READ_PROPERTY], a + b);
    NoValueIn(ERROR_CLASS_PROPERTY, b);
    NoValueIn(INVALID_ARRAY_INDEX, []);
    assert b + [] == b;
    NothingToFind();
  }

  lemma NothingToFind()
    ensures FindValue([]) == Ok(None)
  {
  }

  predicate SingleTags(elements: seq<Bytes>) {
    |elements| < 0x1_0000_0000 && forall i :: 0 <= i < |elements| ==> AccessSpecifications.OneTag(elements[i])
  }

  /** Index 0 reads the number of elements, index `i` the `i`-th element exactly when that is a
      primitive, and past the last there is no value. */
  predicate ElementRead(read: Result<Option<Bytes>>, index: nat, elements: seq<Bytes>)
    requires |elements| < 0x1_0000_0000
  {
    if index == 0 then read == Ok(Some(ApplicationUnsigned(|elements|)))
    else if index <= |elements| then read == Ok(Some(elements[index - 1])) <==> IsPrimitive(elements[index - 1])
    else read == Ok(None)
  }

  /** Past the last element the answer is Error PROPERTY, INVALID_ARRAY_INDEX; and a property the
      server does not have is left to the rest of the server. */
  lemma {:induction false} NoElement(objects: Objects, invokeId: byte, id: ObjectId, property: Unsigned32,
                                     index: Unsigned32, elements: seq<Bytes>)
    requires Encodable(id) && |elements| < index
    ensures ElementAnswer(invokeId, id, property, index, elements) == [0x50, invokeId, 0x0C, 0x91, 0x02, 0x91, 0x2A]
    ensures var request := ReadPropertyRequest(invokeId, id, property, Some(index));
            |request| >= 4 && (Served(objects, id, property).None? ==> ReadElement(objects, request) == Ok(None))
  {
    hide ParseReadPropertyRequest, Reference, Encodable, BigEndian;
    RequestHead(invokeId, id, property, index);
    ReadPropertyRequestRoundTrip(invokeId, id, property, Some(index));
    assert ApplicationEnumerated(ERROR_CLASS_PROPERTY) == [0x91, 0x02];
    assert ApplicationEnumerated(INVALID_ARRAY_INDEX) == [0x91, 0x2A];
  }

  /** What the client makes of the answer. */
  lemma {:induction false} ElementReads(invokeId: byte, id: ObjectId, property: Unsigned32, index: Unsigned32,
                                        elements: seq<Bytes>)
    requires Encodable(id) && SingleTags(elements)
    ensures ElementRead(ReadPropertyValue(ElementAnswer(invokeId, id, property, index, elements)), index, elements)
  {
    hide ReadPropertyValue, ReadPropertyAck, ErrorApdu, Balanced, IsPrimitive, ApplicationUnsigned, Encodable,
         AccessSpecifications.OneTag;
    if index == 0 {
      UnsignedBalanced(|elements|);
      ReadPropertyAckRoundTrip(invokeId, id, property, Some(0), ApplicationUnsigned(|elements|));
    } else if index <= |elements| {
      OneTagBalanced(elements[index - 1]);
      ReadPropertyAckRoundTrip(invokeId, id, property, Some(index), elements[index - 1]);
    } else {
      ErrorHasNoValue(invokeId);
    }
  }

  /** The whole exchange for one element of an array, each element one tag. */
  lemma {:induction false} ReadElementExchange(objects: Objects, invokeId: byte, id: ObjectId, property: Unsigned32,
                                               index: Unsigned32, elements: seq<Bytes>)
    requires Encodable(id) && SingleTags(elements)
    requires Served(objects, id, property) == Some(AccessSpecifications.Concat(elements))
    ensures var request := ReadPropertyRequest(invokeId, id, property, Some(index));
            && |request| >= 4
            && var reply := ReadElement(objects, request);
               && reply.Ok? && reply.value.Some?
               && |reply.value.value| >= 3 && reply.value.value[1] == invokeId && reply.value.value[2] == 12
               && ElementRead(ReadPropertyValue(reply.value.value), index, elements)
  {
    hide ParseReadPropertyRequest, ReadPropertyValue, ElementAnswer, ElementRead, Reference, Encodable, Served,
         AccessSpecifications.OneTag, AccessSpecifications.Elements, AccessSpecifications.Concat;
    RequestHead(invokeId, id, property, index);
    ReadPropertyRequestRoundTrip(invokeId, id, property, Some(index));
    AccessSpecifications.ElementsOfConcat(elements);
    ElementReads(invokeId, id, property, index, elements);
    ElementHead(invokeId, id, property, index, elements);
  }

  lemma ElementHead(invokeId: byte, id: ObjectId, property: Unsigned32, index: Unsigned32, elements: seq<Bytes>)
    requires Encodable(id) && |elements| < 0x1_0000_0000
    ensures var answer := ElementAnswer(invokeId, id, property, index, elements);
            |answer| >= 3 && answer[1] == invokeId && answer[2] == 12
  {
    hide Reference, ApplicationUnsigned, ApplicationEnumerated, Opening, Closing;
  }

  lemma RequestHead(invokeId: byte, id: ObjectId, property: Unsigned32, index: Unsigned32)
    requires Encodable(id)
    ensures var request := ReadPropertyRequest(invokeId, id, property, Some(index));
            |request| >= 4 && request[2] == invokeId
  {
    hide Reference;
  }
}
