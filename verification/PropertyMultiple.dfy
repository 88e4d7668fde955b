/** ReadPropertyMultiple (clause 15.7): one answer for many objects, decoded into a
    dictionary of dictionaries, and the access specifications that ask for it. */
module PropertyMultiple {
  import opened Octets
  import opened Tags
  import opened PropertyServices

  const READ_PROPERTY_MULTIPLE: byte := 14
  const ERROR_CLASS_PROPERTY: Unsigned32 := 2
  const ERROR_CODE_UNKNOWN_PROPERTY: Unsigned32 := 32

  // ---- The answer as it is built ----

  /** A property, an array index if one was asked for, and the value octets; None answers with an
      error. The simulated server's encoder writes no index, a device answers with one. */
  datatype Entry = Entry(property: Unsigned32, index: Option<Unsigned32>, value: Option<Bytes>)

  datatype ObjectResult = ObjectResult(id: ObjectId, entries: seq<Entry>)

  function ErrorOctets(): Bytes {
    ApplicationEnumerated(ERROR_CLASS_PROPERTY) + ApplicationEnumerated(ERROR_CODE_UNKNOWN_PROPERTY)
  }

  function EntryValue(e: Entry): Bytes {
    match e.value
    case None => Opening(5) + (ErrorOctets() + Closing(5))
    case Some(v) => Opening(4) + (v + Closing(4))
  }

  /** [2] property and, if there is one, [3] array index. */
  function EntryHead(e: Entry): Bytes {
    ContextUnsigned(2, e.property) + Optional(3, e.index)
  }

  function EntriesOctets(es: seq<Entry>): Bytes {
    if es == [] then [] else EntryHead(es[0]) + (EntryValue(es[0]) + EntriesOctets(es[1..]))
  }

  predicate AllEncodable(rs: seq<ObjectResult>) {
    forall i :: 0 <= i < |rs| ==> Encodable(rs[i].id)
  }

  function ResultsOctets(rs: seq<ObjectResult>): Bytes
    requires AllEncodable(rs)
  {
    if rs == [] then []
    else
      ContextObjectId(0, rs[0].id) +
      (Opening(1) + (EntriesOctets(rs[0].entries) + (Closing(1) + ResultsOctets(rs[1..]))))
  }

  function ReadPropertyMultipleAck(invokeId: byte, rs: seq<ObjectResult>): Bytes
    requires AllEncodable(rs)
  {
    [0x30, invokeId, READ_PROPERTY_MULTIPLE] + ResultsOctets(rs)
  }

  // ---- The answer as it is read ----

  /** A dictionary key: a property, with an array index when the answer carried one. */
  datatype Key = Key(property: Option<nat>, index: Option<nat>)

  datatype Answer = Octets(value: Bytes) | Error(codes: seq<nat>)

  type Answers = map<Key, Answer>

  datatype State = State(
    results: map<ObjectId, Answers>,
    current: Option<ObjectId>,
    property: Option<nat>,
    index: Option<nat>)

  function Start(): State {
    State(map[], None, None, None)
  }

  /** Every application-tagged primitive's content octets, in order. */
  function ApplicationValues(s: Bytes): Result<seq<Bytes>>
    decreases |s|
  {
    if s == [] then Ok([])
    else
      var tag :- ReadTag(s);
      Prefixed(if tag.kind == Value && !tag.isContext then [tag.body] else [], ApplicationValues(Drop(s, tag.size)))
  }

  function Codes(values: seq<Bytes>): seq<nat> {
    seq(if |values| < 2 then |values| else 2, i requires 0 <= i < |values| => BigEndian(values[i]))
  }

  function AnswersOf(results: map<ObjectId, Answers>, id: ObjectId): Answers {
    if id in results then results[id] else map[]
  }

  /** `results.setdefault(id, {})` */
  function Select(st: State, id: ObjectId): State {
    st.(results := st.results[id := AnswersOf(st.results, id)], current := Some(id))
  }

  /** `current[reference] = answer` */
  function Store(st: State, answer: Answer): State
    requires st.current.Some?
  {
    var id := st.current.value;
    st.(results := st.results[id := AnswersOf(st.results, id)[Key(st.property, st.index) := answer]])
  }

  /** What a [4] value or a [5] error holds. */
  function AnswerIn(number: nat, inner: Bytes): Result<Answer> {
    if number == 4 then Ok(Octets(inner))
    else
      var values :- ApplicationValues(inner);
      Ok(Error(Codes(values)))
  }

  /** A context primitive: [0] object, [2] property, [3] array index, others ignored. */
  function Note(st: State, tag: Tag): Result<State> {
    if tag.number == 0 then
      var id :- Unpacked(tag.body);
      Ok(Select(st, id))
    else if tag.number == 2 then Ok(st.(property := Some(BigEndian(tag.body)), index := None))
    else if tag.number == 3 then Ok(st.(index := Some(BigEndian(tag.body))))
    else Ok(st)
  }

  predicate Holds(st: State, tag: Tag) {
    tag.kind == Open && (tag.number == 4 || tag.number == 5) && st.current.Some?
  }

  function ParseResults(s: Bytes, st: State): Result<map<ObjectId, Answers>>
    decreases |s|
  {
    if s == [] then Ok(st.results)
    else
      var tag :- ReadTag(s);
      var rest := Drop(s, tag.size);
      if tag.kind == Value && tag.isContext then
        var noted :- Note(st, tag);
        ParseResults(rest, noted)
      else if Holds(st, tag) then
        var (length, end) :- FindClose(rest, 1);
        var answer :- AnswerIn(tag.number, Take(rest, length));
        ParseResults(Drop(rest, end), Store(st, answer))
      else ParseResults(rest, st)
  }

  function ParseAck(apdu: Bytes): Result<Option<map<ObjectId, Answers>>> {
    if apdu == [] || apdu[0] / 16 != 3 then Ok(None)
    else if |apdu| < 3 then Truncated
    else if apdu[2] != READ_PROPERTY_MULTIPLE then Ok(None)
    else Caught(ParseResults(Drop(apdu, 3), Start()))
  }

  // ---- What the answer says ----

  function AnswerOf(e: Entry): Answer {
    match e.value
    case None => Error([ERROR_CLASS_PROPERTY, ERROR_CODE_UNKNOWN_PROPERTY])
    case Some(v) => Octets(v)
  }

  /** The reference an entry answers. */
  function KeyOf(e: Entry): Key {
    Key(Some(e.property), Widen(e.index))
  }

  function Add(m: Answers, es: seq<Entry>): Answers
    decreases |es|
  {
    if es == [] then m else Add(m[KeyOf(es[0]) := AnswerOf(es[0])], es[1..])
  }

  function Merge(results: map<ObjectId, Answers>, rs: seq<ObjectResult>): map<ObjectId, Answers>
    decreases |rs|
  {
    if rs == [] then results
    else Merge(results[rs[0].id := Add(AnswersOf(results, rs[0].id), rs[0].entries)], rs[1..])
  }

  predicate AllBalanced(es: seq<Entry>) {
    forall i :: 0 <= i < |es| && es[i].value.Some? ==> Balanced(es[i].value.value, 0)
  }

  lemma {:induction false} StepPrimitive(tag: TagNumber, body: Bytes, rest: Bytes, st: State)
    requires |body| <= 4
    ensures ParseResults(Context(tag, body) + rest, st) ==
            match Note(st, Tag(tag, true, Value, body, 1 + |body|))
            case Ok(noted) => ParseResults(rest, noted)
            case Truncated => Truncated
            case ValueError => ValueError
  {
    hide ReadTag, FindClose, Note, AnswerIn;
    ReadContext(tag, body, rest);
  }

  lemma {:induction false} StepObject(id: ObjectId, rest: Bytes, st: State)
    requires Encodable(id)
    ensures ParseResults(ContextObjectId(0, id) + rest, st) == ParseResults(rest, Select(st, id))
  {
    hide ParseResults, Context, UnpackObjectId;
    StepPrimitive(0, ObjectIdOctets(id), rest, st);
    ObjectIdRoundTrip(id);
  }

  lemma {:induction false} StepProperty(property: Unsigned32, rest: Bytes, st: State)
    ensures ParseResults(ContextUnsigned(2, property) + rest, st) ==
            ParseResults(rest, st.(property := Some(property), index := None))
  {
    hide ParseResults, Context;
    StepPrimitive(2, UnsignedOctets(property), rest, st);
  }

  /** An array index belongs to the property in front of it. */
  lemma {:induction false} StepIndex(index: Unsigned32, rest: Bytes, st: State)
    ensures ParseResults(ContextUnsigned(3, index) + rest, st) == ParseResults(rest, st.(index := Some(index)))
  {
    hide ParseResults, Context;
    StepPrimitive(3, UnsignedOctets(index), rest, st);
  }

  /** The reference of an entry replaces that of the entry before it, index and all. */
  lemma {:induction false} StepHead(e: Entry, rest: Bytes, st: State)
    ensures ParseResults(EntryHead(e) + rest, st) ==
            ParseResults(rest, st.(property := Some(e.property), index := Widen(e.index)))
  {
    hide ParseResults, ContextUnsigned;
    Regroup3(ContextUnsigned(2, e.property), Optional(3, e.index), rest);
    StepProperty(e.property, Optional(3, e.index) + rest, st);
    if e.index.Some? {
      StepIndex(e.index.value, rest, st.(property := Some(e.property), index := None));
    } else {
      assert Optional(3, e.index) + rest == rest;
    }
  }

  lemma {:induction false} StepList(rest: Bytes, st: State)
    ensures ParseResults(Opening(1) + rest, st) == ParseResults(rest, st)
    ensures ParseResults(Closing(1) + rest, st) == ParseResults(rest, st)
  {
    hide ReadTag, FindClose, Note, AnswerIn;
    ReadOpening(1, rest);
    ReadClosing(1, rest);
  }

  /** A balanced value between [4] or [5] tags is stored whole. */
  lemma StepValue(tag: TagNumber, inner: Bytes, answer: Answer, rest: Bytes, st: State)
    requires (tag == 4 || tag == 5) && Balanced(inner, 0) && st.current.Some?
    requires AnswerIn(tag, inner) == Ok(answer)
    ensures ParseResults(Opening(tag) + (inner + Closing(tag)) + rest, st) == ParseResults(rest, Store(st, answer))
  {
    hide ReadTag, FindClose, Balanced, AnswerIn, Store;
    var tail := Closing(tag) + rest;
    Regroup3(Opening(tag), inner + Closing(tag), rest);
    Regroup3(inner, Closing(tag), rest);
    ReadOpening(tag, inner + tail);
    ReadClosing(tag, rest);
    CloseIsFound(inner, 0, tail);
    DropInside(inner, tail, |inner|);
    DropDrop(inner + tail, |inner|, 1);
    assert Take(inner + tail, |inner|) == inner;
  }

  lemma EnumeratedReads(v: Unsigned32, rest: Bytes)
    requires v < 0x100
    ensures ReadTag(ApplicationEnumerated(v) + rest) == Ok(Tag(9, false, Value, [v], 2))
    ensures Drop(ApplicationEnumerated(v) + rest, 2) == rest
  {
    var s := ApplicationEnumerated(v) + rest;
    assert UnsignedOctets(v) == [v];
    assert s == [0x91, v] + rest;
    assert ReadHead(s) == Ok(Head(9, false, 1, 1));
    assert Drop(s, 1)[..1] == [v];
  }

  lemma ValuesStep(v: Unsigned32, rest: Bytes, values: seq<Bytes>)
    requires v < 0x100 && ApplicationValues(rest) == Ok(values)
    ensures ApplicationValues(ApplicationEnumerated(v) + rest) == Ok([[v]] + values)
    ensures Balanced(rest, 0) ==> Balanced(ApplicationEnumerated(v) + rest, 0)
  {
    hide ReadTag;
    EnumeratedReads(v, rest);
  }

  lemma ErrorReads()
    ensures Balanced(ErrorOctets(), 0)
    ensures AnswerIn(5, ErrorOctets()) == Ok(Error([ERROR_CLASS_PROPERTY, ERROR_CODE_UNKNOWN_PROPERTY]))
  {
    hide ReadTag, ApplicationEnumerated;
    var b := ApplicationEnumerated(ERROR_CODE_UNKNOWN_PROPERTY);
    ValuesStep(ERROR_CODE_UNKNOWN_PROPERTY, [], []);
    assert b + [] == b;
    var tail: seq<Bytes> := [[ERROR_CODE_UNKNOWN_PROPERTY]] + [];
    ValuesStep(ERROR_CLASS_PROPERTY, b, tail);
    var values: seq<Bytes> := [[ERROR_CLASS_PROPERTY]] + tail;
    BigEndianSmall(values[0]);
    BigEndianSmall(values[1]);
    assert Codes(values) == [ERROR_CLASS_PROPERTY, ERROR_CODE_UNKNOWN_PROPERTY];
  }

  lemma StepEntry(e: Entry, rest: Bytes, st: State)
    requires st.current.Some? && (e.value.Some? ==> Balanced(e.value.value, 0))
    ensures ParseResults(EntryValue(e) + rest, st) == ParseResults(rest, Store(st, AnswerOf(e)))
  {
    hide ParseResults, Opening, Closing, Balanced, AnswerIn, ErrorOctets, Store;
    match e.value
    case None =>
      ErrorReads();
      StepValue(5, ErrorOctets(), AnswerOf(e), rest, st);
    case Some(v) =>
      ValueHeld(v);
      StepValue(4, v, AnswerOf(e), rest, st);
  }

  lemma ValueHeld(v: Bytes)
    ensures AnswerIn(4, v) == Ok(Octets(v))
  {
  }

  /** After the entries the state holds them under the current object. */
  predicate Entered(st: State, es: seq<Entry>, after: State) {
    && st.current.Some?
    && after.current == st.current
    && after.results == st.results[st.current.value := Add(AnswersOf(st.results, st.current.value), es)]
  }

  lemma {:induction false} StepEntries(es: seq<Entry>, rest: Bytes, st: State) returns (after: State)
    requires st.current.Some? && AllBalanced(es) && st.current.value in st.results
    ensures ParseResults(EntriesOctets(es) + rest, st) == ParseResults(rest, after)
    ensures Entered(st, es, after)
    decreases |es|
  {
    hide ParseResults, EntryHead, EntryValue, Balanced, AnswerOf;
    if es == [] {
      assert EntriesOctets(es) + rest == rest;
      after := st;
      assert st.results[st.current.value := st.results[st.current.value]] == st.results;
    } else {
      var tail := EntriesOctets(es[1..]) + rest;
      var st1 := st.(property := Some(es[0].property), index := Widen(es[0].index));
      Regroup4(EntryHead(es[0]), EntryValue(es[0]), EntriesOctets(es[1..]), rest);
      Regroup3(EntryHead(es[0]), EntryValue(es[0]), EntriesOctets(es[1..]));
      StepHead(es[0], EntryValue(es[0]) + tail, st);
      StepEntry(es[0], tail, st1);
      after := StepEntries(es[1..], rest, Store(st1, AnswerOf(es[0])));
      EnteredStep(st, es, after);
    }
  }

  lemma EnteredStep(st: State, es: seq<Entry>, after: State)
    requires es != [] && st.current.Some?
    requires var st1 := st.(property := Some(es[0].property), index := Widen(es[0].index));
             Entered(Store(st1, AnswerOf(es[0])), es[1..], after)
    ensures Entered(st, es, after)
  {
  }

  lemma {:induction false} StepResults(rs: seq<ObjectResult>, st: State)
    requires AllEncodable(rs) && forall i :: 0 <= i < |rs| ==> AllBalanced(rs[i].entries)
    ensures ParseResults(ResultsOctets(rs), st) == Ok(Merge(st.results, rs))
    decreases |rs|
  {
    hide ParseResults, ContextObjectId, Opening, Closing, EntriesOctets, Balanced, Add;
    if rs == [] {
      NothingLeft(st);
    } else {
      var rest := ResultsOctets(rs[1..]);
      var entries := EntriesOctets(rs[0].entries) + (Closing(1) + rest);
      StepObject(rs[0].id, Opening(1) + entries, st);
      StepList(entries, Select(st, rs[0].id));
      var after := StepEntries(rs[0].entries, Closing(1) + rest, Select(st, rs[0].id));
      StepList(rest, after);
      StepResults(rs[1..], after);
      assert after.results == st.results[rs[0].id := Add(AnswersOf(st.results, rs[0].id), rs[0].entries)];
    }
  }

  lemma NothingLeft(st: State)
    ensures ParseResults([], st) == Ok(st.results)
  {
  }

  // ---- Which answer is found for a reference ----

  datatype Item = Item(id: ObjectId, entry: Entry)

  function Items(id: ObjectId, es: seq<Entry>): seq<Item> {
    seq(|es|, i requires 0 <= i < |es| => Item(id, es[i]))
  }

  function Flatten(rs: seq<ObjectResult>): seq<Item> {
    if rs == [] then [] else Items(rs[0].id, rs[0].entries) + Flatten(rs[1..])
  }

  predicate About(item: Item, id: ObjectId, key: Key) {
    item.id == id && KeyOf(item.entry) == key
  }

  /** The last answer given for a reference. */
  function LastAnswer(items: seq<Item>, id: ObjectId, key: Key): Option<Answer> {
    if items == [] then None
    else if About(items[|items| - 1], id, key) then Some(AnswerOf(items[|items| - 1].entry))
    else LastAnswer(items[..|items| - 1], id, key)
  }

  function Lookup(results: map<ObjectId, Answers>, id: ObjectId, key: Key): Option<Answer> {
    if id in results && key in results[id] then Some(results[id][key]) else None
  }

  function Or(a: Option<Answer>, b: Option<Answer>): Option<Answer> {
    if a.Some? then a else b
  }

  lemma {:induction false} LastConcat(a: seq<Item>, b: seq<Item>, id: ObjectId, key: Key)
    ensures LastAnswer(a + b, id, key) == Or(LastAnswer(b, id, key), LastAnswer(a, id, key))
    decreases |b|
  {
    if b == [] {
      assert a + b == a;
    } else {
      assert (a + b)[..|a + b| - 1] == a + b[..|b| - 1];
      LastConcat(a, b[..|b| - 1], id, key);
    }
  }

  lemma {:induction false} AddLookup(m: Answers, es: seq<Entry>, id: ObjectId, key: Key)
    ensures Lookup(map[id := Add(m, es)], id, key) ==
            Or(LastAnswer(Items(id, es), id, key), Lookup(map[id := m], id, key))
    decreases |es|
  {
    hide AnswerOf;
    if es != [] {
      AddLookup(m[KeyOf(es[0]) := AnswerOf(es[0])], es[1..], id, key);
      assert Items(id, es) == [Item(id, es[0])] + Items(id, es[1..]);
      LastConcat([Item(id, es[0])], Items(id, es[1..]), id, key);
      assert [Item(id, es[0])][..0] == [];
    }
  }

  lemma {:induction false} OtherItems(other: ObjectId, es: seq<Entry>, id: ObjectId, key: Key)
    requires other != id
    ensures LastAnswer(Items(other, es), id, key) == None
    decreases |es|
  {
    if es != [] {
      assert Items(other, es)[..|es| - 1] == Items(other, es[..|es| - 1]);
      OtherItems(other, es[..|es| - 1], id, key);
    }
  }

  /** The decoded dictionary answers every object and reference with the last entry for it,
      or with what was there before. */
  lemma {:induction false} MergeLookup(results: map<ObjectId, Answers>, rs: seq<ObjectResult>, id: ObjectId,
      key: Key)
    ensures Lookup(Merge(results, rs), id, key) ==
            Or(LastAnswer(Flatten(rs), id, key), Lookup(results, id, key))
    decreases |rs|
  {
    hide Add;
    if rs != [] {
      var m := AnswersOf(results, rs[0].id);
      MergeLookup(results[rs[0].id := Add(m, rs[0].entries)], rs[1..], id, key);
      LastConcat(Items(rs[0].id, rs[0].entries), Flatten(rs[1..]), id, key);
      if rs[0].id == id {
        AddLookup(m, rs[0].entries, id, key);
      } else {
        OtherItems(rs[0].id, rs[0].entries, id, key);
      }
    }
  }

  predicate DistinctReferences(items: seq<Item>) {
    forall i, j :: 0 <= i < j < |items| ==> !About(items[i], items[j].id, KeyOf(items[j].entry))
  }

  lemma {:induction false} OnlyAnswer(items: seq<Item>, k: nat)
    requires DistinctReferences(items) && k < |items|
    ensures LastAnswer(items, items[k].id, KeyOf(items[k].entry)) == Some(AnswerOf(items[k].entry))
    decreases |items|
  {
    var n := |items| - 1;
    if k < n {
      assert !About(items[k], items[n].id, KeyOf(items[n].entry));
      assert items[..n][k] == items[k];
      OnlyAnswer(items[..n], k);
    }
  }

  /** Only balanced octets are ever stored. */
  predicate AllStoredBalanced(results: map<ObjectId, Answers>) {
    forall id, key :: id in results && key in results[id] && results[id][key].Octets? ==>
      Balanced(results[id][key].value, 0)
  }

  lemma {:induction false} StoresBalanced(s: Bytes, st: State)
    requires AllStoredBalanced(st.results) && ParseResults(s, st).Ok?
    ensures AllStoredBalanced(ParseResults(s, st).value)
    decreases |s|
  {
    hide ReadTag, FindClose, Balanced, BigEndian, ApplicationValues;
    if s != [] {
      var tag := ReadTag(s).value;
      var rest := Drop(s, tag.size);
      if tag.kind == Value && tag.isContext {
        StoresBalanced(rest, Note(st, tag).value);
      } else if Holds(st, tag) {
        FoundIsBalanced(rest, 0);
        var (length, end) := FindClose(rest, 1).value;
        var answer := AnswerIn(tag.number, Take(rest, length)).value;
        assert AllStoredBalanced(Store(st, answer).results);
        StoresBalanced(Drop(rest, end), Store(st, answer));
      } else {
        StoresBalanced(rest, st);
      }
    }
  }

  lemma {:induction false} FlattenHas(rs: seq<ObjectResult>, i: nat, j: nat) returns (k: nat)
    requires i < |rs| && j < |rs[i].entries|
    ensures k < |Flatten(rs)| && Flatten(rs)[k] == Item(rs[i].id, rs[i].entries[j])
    decreases |rs|
  {
    if i == 0 {
      k := j;
    } else {
      var k' := FlattenHas(rs[1..], i - 1, j);
      k := |rs[0].entries| + k';
    }
  }

  /** A value that is not balanced is never recovered. */
  lemma {:induction false} UnbalancedIsLost(rs: seq<ObjectResult>, i: nat, j: nat)
    requires AllEncodable(rs) && DistinctReferences(Flatten(rs)) && i < |rs| && j < |rs[i].entries|
    requires rs[i].entries[j].value.Some? && !Balanced(rs[i].entries[j].value.value, 0)
    ensures ParseResults(ResultsOctets(rs), Start()) != Ok(Merge(map[], rs))
  {
    hide ParseResults, ResultsOctets, Balanced, Merge, LastAnswer, Flatten, DistinctReferences;
    var k := FlattenHas(rs, i, j);
    OnlyAnswer(Flatten(rs), k);
    MergeLookup(map[], rs, rs[i].id, KeyOf(rs[i].entries[j]));
    assert !AllStoredBalanced(Merge(map[], rs));
    if ParseResults(ResultsOctets(rs), Start()).Ok? {
      StoresBalanced(ResultsOctets(rs), Start());
    }
  }

  /** For answers with distinct references: the client recovers exactly the dictionary the
      server meant if and only if every value is a balanced run of tags. */
  lemma {:induction false} ReadPropertyMultipleRoundTrip(invokeId: byte, rs: seq<ObjectResult>)
    requires AllEncodable(rs) && DistinctReferences(Flatten(rs))
    ensures ParseAck(ReadPropertyMultipleAck(invokeId, rs)) == Ok(Some(Merge(map[], rs))) <==>
            forall i :: 0 <= i < |rs| ==> AllBalanced(rs[i].entries)
  {
    hide ParseResults, ResultsOctets, Balanced, Merge, Flatten, DistinctReferences;
    DropPrefix([0x30, invokeId, READ_PROPERTY_MULTIPLE], ResultsOctets(rs));
    if i :| 0 <= i < |rs| && !AllBalanced(rs[i].entries) {
      var j :| 0 <= j < |rs[i].entries| && rs[i].entries[j].value.Some? && !Balanced(rs[i].entries[j].value.value, 0);
      UnbalancedIsLost(rs, i, j);
    } else {
      StepResults(rs, Start());
    }
  }

  /** From the octets of an answer with distinct references, indexed or not: each reference is found
      with its own value or error, and no other reference is found at all. */
  lemma {:induction false} EveryReferenceFound(invokeId: byte, rs: seq<ObjectResult>, id: ObjectId, key: Key)
    requires AllEncodable(rs) && DistinctReferences(Flatten(rs))
    requires forall i :: 0 <= i < |rs| ==> AllBalanced(rs[i].entries)
    ensures var parsed := ParseAck(ReadPropertyMultipleAck(invokeId, rs));
            && parsed.Ok? && parsed.value.Some?
            && (forall k :: 0 <= k < |Flatten(rs)| && About(Flatten(rs)[k], id, key) ==>
                  Lookup(parsed.value.value, id, key) == Some(AnswerOf(Flatten(rs)[k].entry)))
            && ((forall k :: 0 <= k < |Flatten(rs)| ==> !About(Flatten(rs)[k], id, key)) ==>
                  Lookup(parsed.value.value, id, key) == None)
  {
    hide ParseAck, ReadPropertyMultipleAck, Merge, Flatten, AllBalanced, LastAnswer, AllEncodable, DistinctReferences,
         AnswerOf, Lookup;
    ReadPropertyMultipleRoundTrip(invokeId, rs);
    MergeLookup(map[], rs, id, key);
    NothingThere(id, key);
    var items := Flatten(rs);
    forall k | 0 <= k < |items| && About(items[k], id, key)
      ensures LastAnswer(items, id, key) == Some(AnswerOf(items[k].entry))
    {
      OnlyAnswer(items, k);
    }
    if forall k :: 0 <= k < |items| ==> !About(items[k], id, key) {
      NoneAbout(items, id, key);
    }
  }

  lemma NothingThere(id: ObjectId, key: Key)
    ensures Lookup(map[], id, key) == None
  {
  }

  lemma {:induction false} NoneAbout(items: seq<Item>, id: ObjectId, key: Key)
    requires forall k :: 0 <= k < |items| ==> !About(items[k], id, key)
    ensures LastAnswer(items, id, key) == None
    decreases |items|
  {
    hide About;
    if items != [] {
      assert forall k :: 0 <= k < |items| - 1 ==> items[..|items| - 1][k] == items[k];
      NoneAbout(items[..|items| - 1], id, key);
    }
  }

  // ---- The parsers as they run ----

  /** `application_values`, keeping the content octets. */
  method ApplicationValuesAt(octets: Bytes) returns (r: Result<seq<Bytes>>)
    ensures r == ApplicationValues(octets)
  {
    hide ReadTag;
    var values: seq<Bytes> := [];
    var position := 0;
    assert Drop(octets, 0) == octets;
    PrefixedNil(ApplicationValues(octets));
    while position < |octets|
      invariant Prefixed(values, ApplicationValues(Drop(octets, position))) == ApplicationValues(octets)
      decreases |octets| - position
    {
      var tag := ReadTag(Drop(octets, position));
      if tag.IsFailure() { return tag.PropagateFailure(); }
      DropDrop(octets, position, tag.value.size);
      position := position + tag.value.size;
      ghost var rest := ApplicationValues(Drop(octets, position));
      if tag.value.kind == Value && !tag.value.isContext {
        PrefixedTwice(values, [tag.value.body], rest);
        values := values + [tag.value.body];
      } else {
        PrefixedNil(rest);
      }
    }
    assert values + [] == values;
    return Ok(values);
  }

  /** One [4] or [5] constructed value, just after its opening tag. */
  method AnswerAt(apdu: Bytes, position: nat, number: nat) returns (r: Result<Answer>, after: nat)
    ensures match FindClose(Drop(apdu, position), 1)
            case Ok((length, end)) =>
              r == AnswerIn(number, Take(Drop(apdu, position), length)) && after == position + end
            case Truncated => r == Truncated
            case ValueError => r == ValueError
  {
    hide FindClose, ApplicationValues, Codes, Drop, Take;
    after := position;
    var body := ConstructedBody(apdu, position);
    if body.IsFailure() { return body.PropagateFailure(), after; }
    var inner;
    inner, after := body.value.0, body.value.1;
    if number == 4 { return Ok(Octets(inner)), after; }
    var values := ApplicationValuesAt(inner);
    if values.IsFailure() { return values.PropagateFailure(), after; }
    return Ok(Error(Codes(values.value))), after;
  }

  method ParseResultsAt(apdu: Bytes) returns (r: Result<map<ObjectId, Answers>>)
    ensures r == ParseResults(Drop(apdu, 3), Start())
  {
    hide ReadTag, FindClose, Drop, Take, Note, Store, AnswerIn;
    var st := Start();
    var position := 3;
    while position < |apdu|
      invariant ParseResults(Drop(apdu, position), st) == ParseResults(Drop(apdu, 3), Start())
      decreases |apdu| - position
    {
      var tag, after := Next(apdu, position);
      if tag.IsFailure() { return tag.PropagateFailure(); }
      position := after;
      if tag.value.kind == Value && tag.value.isContext {
        var noted := Note(st, tag.value);
        if noted.IsFailure() { return noted.PropagateFailure(); }
        st := noted.value;
      } else if Holds(st, tag.value) {
        var answer;
        answer, after := AnswerAt(apdu, position, tag.value.number);
        if answer.IsFailure() { return answer.PropagateFailure(); }
        DropDrop(apdu, position, after - position);
        st := Store(st, answer.value);
        position := after;
      }
    }
    return Ok(st.results);
  }

  /** `parse_read_property_multiple_ack` */
  method ParseAckAt(apdu: Bytes) returns (r: Result<Option<map<ObjectId, Answers>>>)
    ensures r == ParseAck(apdu)
  {
    hide ParseResults;
    if apdu == [] { return Ok(None); }
    if apdu[0] / 16 != 3 { return Ok(None); }
    if |apdu| < 3 { return Truncated; }
    if apdu[2] != READ_PROPERTY_MULTIPLE { return Ok(None); }
    var results := ParseResultsAt(apdu);
    return Caught(results);
  }

  // ---- What the parser passes over ----

  /** Application tags, context primitives other than [0], [2] and [3], and opening and closing tags
      other than [4] and [5] are passed over; so are [4] and [5] before any object. */
  lemma {:induction false} PassedOver(tag: TagNumber, number: TagNumber, body: Bytes, rest: Bytes, st: State)
    requires |body| <= 4 && number != 1
    ensures (tag != 4 && tag != 5) || st.current.None? ==>
              ParseResults(Opening(tag) + rest, st) == ParseResults(rest, st)
    ensures ParseResults(Closing(tag) + rest, st) == ParseResults(rest, st)
    ensures tag != 0 && tag != 2 && tag != 3 ==> ParseResults(Context(tag, body) + rest, st) == ParseResults(rest, st)
    ensures ParseResults(Application(number, body) + rest, st) == ParseResults(rest, st)
  {
    hide ReadTag, FindClose, Note, AnswerIn, Opening, Closing, Application, Context;
    ReadOpening(tag, rest);
    ReadClosing(tag, rest);
    ReadApplication(number, body, rest);
    StepPrimitive(tag, body, rest, st);
    OthersIgnored(st, Tag(tag, true, Value, body, 1 + |body|));
  }

  lemma OthersIgnored(st: State, tag: Tag)
    ensures tag.number != 0 && tag.number != 2 && tag.number != 3 ==> Note(st, tag) == Ok(st)
  {
  }

  lemma {:induction false} ApplicationValuesStep(number: TagNumber, tag: TagNumber, body: Bytes, rest: Bytes)
    requires |body| <= 4 && number != 1
    ensures ApplicationValues(Application(number, body) + rest) == Prefixed([body], ApplicationValues(rest))
    ensures ApplicationValues(Context(tag, body) + rest) == ApplicationValues(rest)
  {
    hide ReadTag, Application, Context;
    ReadApplication(number, body, rest);
    ReadContext(tag, body, rest);
    PrefixedNil(ApplicationValues(rest));
  }

  /** Of an error only application values count, and the first two of them. */
  lemma {:induction false} ErrorCodes(a: byte, b: byte, rest: Bytes)
    requires ApplicationValues(rest).Ok?
    ensures AnswerIn(5, Application(9, [a]) + (Context(0, [b]) + (Application(9, [b]) + rest))) == Ok(Error([a, b]))
  {
    hide ApplicationValues, Application, Context;
    var third := Application(9, [b]) + rest;
    ApplicationValuesStep(9, 0, [b], rest);
    ApplicationValuesStep(9, 0, [b], third);
    ApplicationValuesStep(9, 0, [a], Context(0, [b]) + third);
    BigEndianSmall([a]);
    BigEndianSmall([b]);
    var values := [[a]] + ([[b]] + ApplicationValues(rest).value);
    assert Codes(values) == [a as nat, b as nat];
  }

  /** Only a ComplexACK of ReadPropertyMultiple is parsed as one; one too short to tell raises. */
  lemma {:induction false} OnlyAnswersParse(apdu: Bytes, invokeId: byte)
    ensures ParseAck(apdu).Ok? && ParseAck(apdu).value.Some? ==> |apdu| >= 3 && apdu[0] / 16 == 3 && apdu[2] == 14
    ensures ParseAck([0x30]) == Truncated && ParseAck([0x30, invokeId]) == Truncated
    ensures ParseAck([]) == Ok(None) && ParseAck([0x20, invokeId, 14]) == Ok(None)
    ensures ParseAck([0x30, invokeId, 12]) == Ok(None) && ParseAck([0x30, invokeId, 14]) == Ok(Some(map[]))
  {
    hide ReadTag, FindClose, Note, AnswerIn;
    assert Drop([0x30, invokeId, 14], 3) == [];
  }

  /** An answer cut inside a value is no answer. */
  lemma {:induction false} CutAnswerIsNone(invokeId: byte, id: ObjectId)
    requires Encodable(id)
    ensures ParseAck([0x30, invokeId, 14] + (ContextObjectId(0, id) + Opening(4))) == Ok(None)
  {
    hide ReadTag, ContextObjectId, Opening, Note, AnswerIn, Select;
    var s := ContextObjectId(0, id) + Opening(4);
    DropPrefix([0x30, invokeId, 14], s);
    StepObject(id, Opening(4), Start());
    ReadOpening(4, []);
    assert Opening(4) + [] == Opening(4);
    NothingToRead();
    Selected(id);
  }

  lemma Selected(id: ObjectId)
    ensures Select(Start(), id).current == Some(id)
  {
  }
}
