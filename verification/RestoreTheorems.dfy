/** What a backup followed by a restore amounts to, and what a rejected restore leaves. */
module RestoreTheorems {
  import opened Octets
  import opened Decimal
  import opened Floats
  import opened AnalogValues
  import opened Image
  import opened FileBuffer
  import opened Restore

  type Configuration = map<Unsigned32, Value>

  // ---- The map a list of entries names ----

  /** Each entry in turn over `m`; a repeated instance keeps its last value. */
  function Overlay(m: Configuration, entries: seq<Entry>): Configuration
    decreases |entries|
  {
    if entries == [] then m else Overlay(m[entries[0].instance := entries[0].value], entries[1..])
  }

  function Names(entries: seq<Entry>): set<Unsigned32> {
    set i | 0 <= i < |entries| :: entries[i].instance
  }

  lemma NamesStep(entries: seq<Entry>)
    requires entries != []
    ensures Names(entries) == {entries[0].instance} + Names(entries[1..])
  {
    assert forall i :: 0 < i < |entries| ==> entries[i] == entries[1..][i - 1];
    assert forall i :: 0 <= i < |entries[1..]| ==> entries[1..][i] == entries[i + 1];
  }

  lemma {:induction false} NamesCount(entries: seq<Entry>)
    ensures |Names(entries)| <= |entries|
    decreases |entries|
  {
    if entries != [] {
      NamesStep(entries);
      NamesCount(entries[1..]);
    }
  }

  lemma {:induction false} OverlaySplits(m: Configuration, entries: seq<Entry>)
    ensures Overlay(m, entries) == m + Overlay(map[], entries)
    ensures Overlay(map[], entries).Keys == Names(entries)
    decreases |entries|
  {
    if entries != [] {
      var e := entries[0];
      NamesStep(entries);
      OverlaySplits(m[e.instance := e.value], entries[1..]);
      OverlaySplits(map[e.instance := e.value], entries[1..]);
      assert m[e.instance := e.value] + Overlay(map[], entries[1..])
          == m + (map[e.instance := e.value] + Overlay(map[], entries[1..]));
    }
  }

  /** The last entry for an instance decides its value. */
  lemma {:induction false} LastEntryWins(m: Configuration, entries: seq<Entry>, k: nat)
    requires k < |entries|
    requires forall i :: k < i < |entries| ==> entries[i].instance != entries[k].instance
    ensures entries[k].instance in Overlay(m, entries)
    ensures Overlay(m, entries)[entries[k].instance] == entries[k].value
    decreases |entries|
  {
    var m' := m[entries[0].instance := entries[0].value];
    if k > 0 {
      LastEntryWins(m', entries[1..], k - 1);
    } else {
      OverlaySplits(m', entries[1..]);
      assert forall i :: 0 <= i < |entries[1..]| ==> entries[1..][i] == entries[i + 1];
    }
  }

  // ---- Applying an image exactly ----

  lemma StrictSubset(a: set<Unsigned32>, b: set<Unsigned32>, x: Unsigned32)
    requires a <= b && x in b && x !in a
    ensures |a| < |b|
  {
    assert a <= b - {x};
    SubsetCount(a, b - {x});
  }

  lemma SubsetCount(a: set<Unsigned32>, b: set<Unsigned32>)
    requires a <= b
    ensures |a| <= |b|
  {
    assert |b| == |a| + |b - a| by {
      assert b == a + (b - a);
    }
  }

  /** While every object in use is one of at most eight names, there is a slot for another. */
  lemma RoomForName(t: Table, names: set<Unsigned32>, instance: Unsigned32)
    requires Distinct(t) && |t| == MAX_CREATED
    requires Contents(t).Keys <= names && |names| <= MAX_CREATED && instance in names && instance !in Contents(t)
    ensures Free(t).Some?
  {
    hide Contents, Free;
    if Free(t).None? {
      FullTable(t);
      StrictSubset(Contents(t).Keys, names, instance);
    }
  }

  lemma {:induction false} PlaceAllExact(t: Table, entries: seq<Entry>, accepted: seq<bool>, names: set<Unsigned32>)
    requires Distinct(t) && |t| == MAX_CREATED && |accepted| == |entries|
    requires forall i :: 0 <= i < |accepted| ==> accepted[i]
    requires Contents(t).Keys <= names && Names(entries) <= names && |names| <= MAX_CREATED
    ensures Contents(PlaceAll(t, entries, accepted)) == Overlay(Contents(t), entries)
    decreases |entries|
  {
    hide Contents, Find, Free, Place, Names;
    if entries != [] {
      var e := entries[0];
      NamesStep(entries);
      FindInContents(t, e.instance);
      if e.instance !in Contents(t) {
        RoomForName(t, names, e.instance);
      }
      PlaceInStep(t, Contents(t).Keys, e, true);
      PlaceShape(t, e);
      PlaceAllExact(Place(t, e, true), entries[1..], accepted[1..], names);
    }
  }

  lemma PlaceShape(t: Table, e: Entry)
    ensures |Place(t, e, true)| == |t|
  {
  }

  /** When the stack accepts every object, the table becomes exactly the map the image
      names, whatever it held before, and a slot is found for every entry. */
  lemma ApplyExact(t: Table, entries: seq<Entry>, accepted: seq<bool>)
    requires Distinct(t) && |t| == MAX_CREATED && |entries| <= MAX_CREATED && |accepted| == |entries|
    requires forall i :: 0 <= i < |accepted| ==> accepted[i]
    ensures Contents(Apply(t, entries, accepted)) == Overlay(map[], entries)
  {
    hide Contents, PlaceAll, Purge, Removed, Named;
    var p := Purge(t, entries);
    PurgeInStep(t, Contents(t).Keys, entries);
    NamesCount(entries);
    assert Contents(p).Keys <= Names(entries) by {
      forall x | x in Contents(p)
        ensures x in Names(entries)
      {
        NamedIsName(entries, x);
      }
    }
    PlaceAllExact(p, entries, accepted, Names(entries));
    OverlaySplits(Contents(p), entries);
    assert Contents(p) + Overlay(map[], entries) == Overlay(map[], entries);
  }

  lemma NamedIsName(entries: seq<Entry>, x: Unsigned32)
    requires Named(entries, x)
    ensures x in Names(entries)
  {
  }

  // ---- Backup and restore ----

  /** The configuration with every value printed with six digits and read again. */
  function AllReread(m: Configuration): Configuration {
    map x | x in m :: Reread(m[x])
  }

  lemma RereadWith(m: Configuration, x: Unsigned32, v: Value)
    requires x !in m
    ensures AllReread(m + map[x := v]) == map[x := Reread(v)] + AllReread(m)
    ensures AllReread(map[]) == map[]
  {
    hide Reread;
  }

  lemma OverlayHead(e: Entry, tail: seq<Entry>)
    ensures Overlay(map[], [e] + tail) == map[e.instance := e.value] + Overlay(map[], tail)
  {
    assert ([e] + tail)[1..] == tail;
    OverlaySplits(map[][e.instance := e.value], tail);
  }

  lemma ContentsStep(t: Table)
    requires t != []
    ensures Contents(t) == if t[0].inUse then Contents(t[1..]) + map[t[0].instance := t[0].value] else Contents(t[1..])
  {
  }

  lemma {:induction false} EntriesNameTable(t: Table)
    requires Distinct(t)
    ensures Overlay(map[], Entries(t)) == AllReread(Contents(t))
    decreases |t|
  {
    hide Reread, AllReread, Contents, Overlay;
    if t == [] {
      NoEntries();
    } else {
      EntriesNameTable(t[1..]);
      ContentsStep(t);
      if t[0].inUse {
        HeadIsNew(t);
        OverlayHead(Entry(t[0].instance, Reread(t[0].value)), Entries(t[1..]));
        RereadWith(Contents(t[1..]), t[0].instance, t[0].value);
      } else {
        assert Entries(t) == Entries(t[1..]);
      }
    }
  }

  lemma NoEntries()
    ensures Overlay(map[], []) == map[] && AllReread(Contents([])) == map[]
  {
  }

  /** One chunk of the client's write, with what happens on the device before it. */
  datatype Piece = Piece(between: seq<Event>, append: bool, data: Chunk)

  /** Events that do not write the file. */
  predicate LeavesFile(e: Event) {
    e.CreateObject? || e.DeleteObject? || e.WriteValue? || e.LoopPass?
  }

  predicate Undisturbed(pieces: seq<Piece>) {
    forall i :: 0 <= i < |pieces| ==> forall e :: e in pieces[i].between ==> LeavesFile(e)
  }

  function Data(pieces: seq<Piece>): Bytes {
    if pieces == [] then [] else pieces[0].data + Data(pieces[1..])
  }

  /** Chunks written one after another, each appended or placed at the current end. */
  function WriteAll(d: Device, pieces: seq<Piece>): (d': Device)
    requires Shaped(d)
    ensures Shaped(d')
    decreases |pieces|
  {
    if pieces == [] then d
    else
      var before := Run(d, pieces[0].between);
      var start: FileStart := if pieces[0].append then -1 else before.file.length;
      WriteAll(Step(before, WriteFile(WriteRequest(start, pieces[0].data))), pieces[1..])
  }

  lemma {:induction false} RunLeavesFile(d: Device, events: seq<Event>)
    requires Shaped(d) && forall e :: e in events ==> LeavesFile(e)
    ensures Run(d, events).file == d.file
    decreases |events|
  {
    hide Apply, StackAfter, Create, Delete, SetValue, Answers;
    if events != [] {
      assert LeavesFile(events[0]);
      RunLeavesFile(Step(d, events[0]), events[1..]);
    }
  }

  lemma AppendChunk(d: Device, append: bool, data: Chunk)
    requires Shaped(d) && d.file.length + |data| <= FILE_MAX_SIZE
    ensures var start: FileStart := if append then -1 else d.file.length;
            Content(Step(d, WriteFile(WriteRequest(start, data))).file) == Content(d.file) + data
  {
    var start: FileStart := if append then -1 else d.file.length;
    WriteSplices(d.file, start, data);
    if |data| == 0 {
      assert Splice(Content(d.file), d.file.length, data) == Content(d.file) + data;
    } else {
      assert Content(d.file)[..d.file.length] == Content(d.file);
    }
  }

  predicate NoPieceRefused(pieces: seq<Piece>) {
    forall i :: 0 <= i < |pieces| ==> NoneRefused(pieces[i].between)
  }

  /** However the client cuts the octets, the file ends up holding all of them in order. */
  lemma {:induction false} WriteAllAppends(d: Device, pieces: seq<Piece>)
    requires WellKept(d) && Undisturbed(pieces) && d.file.length + |Data(pieces)| <= FILE_MAX_SIZE
    ensures WellKept(WriteAll(d, pieces))
    ensures Content(WriteAll(d, pieces).file) == Content(d.file) + Data(pieces)
    ensures NoPieceRefused(pieces) ==> Strays(WriteAll(d, pieces)) <= Strays(d)
    decreases |pieces|
  {
    hide Step, Run, Distinct, Contents, NoneRefused, Strays;
    if pieces != [] {
      var before := Run(d, pieces[0].between);
      RunWellKept(d, pieces[0].between);
      RefusalsAreStrays(d, pieces[0].between);
      RunLeavesFile(d, pieces[0].between);
      var start: FileStart := if pieces[0].append then -1 else before.file.length;
      AppendChunk(before, pieces[0].append, pieces[0].data);
      WriteKept(before, WriteFile(WriteRequest(start, pieces[0].data)));
      WriteAllAppends(Step(before, WriteFile(WriteRequest(start, pieces[0].data))), pieces[1..]);
      Regroup3(Content(d.file), pieces[0].data, Data(pieces[1..]));
    } else {
      assert Content(d.file) + [] == Content(d.file);
    }
  }

  /** Steps that change only the file and the staging keep the rest. */
  lemma WriteKept(d: Device, e: Event)
    requires WellKept(d) && !e.LoopPass? && !e.CreateObject? && !e.DeleteObject? && !e.WriteValue?
    ensures WellKept(Step(d, e)) && Strays(Step(d, e)) == Strays(d)
    ensures Step(d, e).table == d.table && Step(d, e).stack == d.stack
  {
    hide Contents, Distinct, Parse, Build, Write, SetSize;
  }

  /** The file written into an empty one, ready to be completed. */
  function Written(d: Device, pieces: seq<Piece>): (d': Device)
    requires Shaped(d)
    ensures Shaped(d')
  {
    WriteAll(Step(d, PrepareRestore), pieces)
  }

  /** The whole restore: prepare, write the octets, complete, and one pass of the main loop
      on which the stack accepts every object. */
  function Restored(d: Device, pieces: seq<Piece>, refused: set<Unsigned32>, other: Outcome): Device
    requires Shaped(d)
  {
    Step(Step(Written(d, pieces), CompleteRestore(false, other)), LoopPass(Yes(MAX_CREATED), refused))
  }

  lemma {:induction false} WrittenHolds(d: Device, pieces: seq<Piece>)
    requires WellKept(d) && Undisturbed(pieces) && |Data(pieces)| <= FILE_MAX_SIZE
    ensures WellKept(Written(d, pieces)) && Content(Written(d, pieces).file) == Data(pieces)
    ensures NoPieceRefused(pieces) ==> Strays(Written(d, pieces)) <= Strays(d)
  {
    hide Contents, WriteAll, Distinct, Strays, NoPieceRefused, Undisturbed;
    var empty := Step(d, PrepareRestore);
    WriteKept(d, PrepareRestore);
    assert Content(empty.file) == [];
    WriteAllAppends(empty, pieces);
    assert [] + Data(pieces) == Data(pieces);
  }

  function Yes(n: nat): seq<bool> {
    seq(n, _ => true)
  }

  /** Restoring the image of a table leaves exactly that table's objects; the stack has no
      other ones but those it refused to remove. */
  lemma {:induction false} RestoreOfImage(d: Device, t: Table, pieces: seq<Piece>,
                                          refused: set<Unsigned32>, other: Outcome)
    requires WellKept(d) && Undisturbed(pieces)
    requires |t| == MAX_CREATED && Distinct(t) && Restorable(t) && AllInFloatRange(t)
    requires |ImageOf(t)| < FILE_MAX_SIZE
    requires Data(pieces) == ImageOf(t)
    ensures Contents(Restored(d, pieces, refused, other).table) == AllReread(Contents(t))
    ensures WellKept(Restored(d, pieces, refused, other))
    ensures NoPieceRefused(pieces) && refused == {} ==> Strays(Restored(d, pieces, refused, other)) <= Strays(d)
  {
    hide Contents, Apply, Parse, ImageOf, StackAfter, Written, Overlay, Distinct, AllReread, Strays, NoPieceRefused,
         AllInFloatRange;
    var written := Written(d, pieces);
    WrittenHolds(d, pieces);
    ImageReads(t);
    var ready := Step(written, CompleteRestore(false, other));
    WriteKept(written, CompleteRestore(false, other));
    assert ready.staged[..ready.stagedCount] == Entries(t);
    var answers := Answers(Yes(MAX_CREATED), ready.stagedCount);
    ApplyKept(ready, Entries(t), answers);
    EntriesNameTable(t);
    StepWellKept(ready, LoopPass(Yes(MAX_CREATED), refused));
  }

  lemma ApplyKept(d: Device, entries: seq<Entry>, accepted: seq<bool>)
    requires WellKept(d) && |entries| <= MAX_CREATED && |accepted| == |entries|
    requires forall i :: 0 <= i < |accepted| ==> accepted[i]
    ensures Contents(Apply(d.table, entries, accepted)) == Overlay(map[], entries)
  {
    hide Contents, Apply, Overlay;
    ApplyExact(d.table, entries, accepted);
  }

  /** The client has read the whole backup of `d` and writes it back. */
  predicate CarriesBackup(d: Device, counts: seq<nat>, limit: nat, pieces: seq<Piece>)
    requires Shaped(d)
  {
    ReadAll(Content(Step(d, PrepareBackup).file), 0, counts, limit) == (Data(pieces), true)
  }

  lemma {:induction false} CarriesImage(d: Device, counts: seq<nat>, limit: nat, pieces: seq<Piece>)
    requires WellKept(d) && AllInFloatRange(d.table) && CarriesBackup(d, counts, limit, pieces)
    ensures Data(pieces) == ImageOf(d.table) && |ImageOf(d.table)| < FILE_MAX_SIZE
  {
    hide Contents, Distinct, Build, ImageOf, AllInFloatRange, ReadAll;
    ImageLength(d.table);
    ImageBuilt(d.file, d.table);
    ReadsConcatenate(Content(Step(d, PrepareBackup).file), 0, counts, limit);
  }

  /** Backup then restore, for any read sizes, any run in between and any write chunks: the
      objects are those of the backup, each with the float nearest to the six digits of its
      value. They are the configuration of the backup exactly when each value is the float of
      some decimal of at most six digits. The stack has the same objects, unless it refused a
      removal. */
  lemma {:induction false} BackupThenRestore(d: Device, counts: seq<nat>, limit: nat, events: seq<Event>,
                                             pieces: seq<Piece>, refused: set<Unsigned32>, other: Outcome)
    requires WellKept(d) && Undisturbed(pieces)
    requires Restorable(d.table) && AllInFloatRange(d.table) && CarriesBackup(d, counts, limit, pieces)
    ensures var after := Restored(Run(Step(d, PrepareBackup), events), pieces, refused, other);
            && Contents(after.table) == AllReread(Contents(d.table))
            && Contents(d.table).Keys <= after.stack
            && (InStep(d.table, d.stack) && NoneRefused(events) && NoPieceRefused(pieces) && refused == {} ==>
                  after.stack == Contents(d.table).Keys)
            && (Contents(after.table) == Contents(d.table) <==>
                forall x :: x in Contents(d.table) ==> SixDigitFloat(Contents(d.table)[x]))
  {
    hide Contents, Build, Run, Restored, ImageOf, AllInFloatRange, Restorable, CarriesBackup, AllReread,
         NoneRefused, NoPieceRefused, Undisturbed, Distinct, SixDigitFloat;
    var backup := Step(d, PrepareBackup);
    CarriesImage(d, counts, limit, pieces);
    WriteKept(d, PrepareBackup);
    RunWellKept(backup, events);
    RefusalsAreStrays(backup, events);
    RestoreOfImage(Run(backup, events), d.table, pieces, refused, other);
    RereadExactly(Contents(d.table));
    var after := Restored(Run(backup, events), pieces, refused, other);
    assert after.stack == Contents(d.table).Keys + Strays(after);
    if InStep(d.table, d.stack) && NoneRefused(events) && NoPieceRefused(pieces) && refused == {} {
      assert Strays(backup) == {};
    }
  }

  lemma {:induction false} RereadExactly(m: Configuration)
    ensures AllReread(m).Keys == m.Keys
    ensures AllReread(m) == m <==> forall x :: x in m ==> SixDigitFloat(m[x])
  {
    hide Single, Round6, SixDigitFloat;
    forall x | x in m
      ensures Reread(m[x]) == m[x] <==> SixDigitFloat(m[x])
    {
      PrintedComesBack(m[x]);
    }
    SameMap(AllReread(m), m);
  }

  lemma SameMap(a: Configuration, b: Configuration)
    requires a.Keys == b.Keys
    ensures a == b <==> forall x :: x in b ==> a[x] == b[x]
  {
  }

  /** Restoring the backup of a restored device changes nothing more. */
  lemma {:induction false} RestoredComesBack(m: Configuration)
    ensures AllReread(AllReread(m)) == AllReread(m)
  {
    hide Single, Round6;
    forall x | x in m
      ensures Reread(Reread(m[x])) == Reread(m[x])
    {
      SixDigitsSurvive(Round6(m[x]));
    }
    assert AllReread(AllReread(m)).Keys == AllReread(m).Keys;
  }

  /** A value that does not come back: 1234567, which six digits show as 1.23457e+06. */
  lemma {:induction false} SevenDigitsAreLost()
    ensures !SixDigitFloat(Number(false, 1234567, 0))
  {
    hide Single, DecimalValue, Within, Close;
    var v, d := Number(false, 1234567, 0), Number(false, 123457, 1);
    RoundOf1234567();
    PrintedComesBack(v);
    if Single(d) == v {
      SingleWithin(d);
      CloseDecimals(v, d);
      NotClose();
    }
  }

  lemma RoundOf1234567()
    ensures Round6(Number(false, 1234567, 0)) == Number(false, 123457, 1)
  {
    assert Digits(123) == Digits(12) + [51] && |Digits(12)| == 2 && |Digits(123)| == 3;
    assert |Digits(12345)| == 5 && |Digits(1234567)| == 7;
    assert Pow10(1) == 10;
    assert RoundedQuotient(1234567, 10) == 123457;
  }

  lemma NotClose()
    ensures !Close(1234567, 123457 * Pow10(1))
  {
  }

  /** So a backup of a device that holds it does not restore that device. */
  lemma {:induction false} BackupLosesDigits(d: Device, counts: seq<nat>, limit: nat, events: seq<Event>,
                                             pieces: seq<Piece>, refused: set<Unsigned32>, other: Outcome,
                                             x: Unsigned32)
    requires WellKept(d) && Undisturbed(pieces)
    requires Restorable(d.table) && AllInFloatRange(d.table) && CarriesBackup(d, counts, limit, pieces)
    requires x in Contents(d.table) && Contents(d.table)[x] == Number(false, 1234567, 0)
    ensures var after := Restored(Run(Step(d, PrepareBackup), events), pieces, refused, other);
            Contents(after.table) != Contents(d.table)
  {
    hide Contents, Run, Restored, AllInFloatRange, Restorable, CarriesBackup, Undisturbed, Distinct, SixDigitFloat;
    BackupThenRestore(d, counts, limit, events, pieces, refused, other);
    SevenDigitsAreLost();
  }

  /** The other half: a table with an instance that no image may name is backed up all the same,
      but its restore is refused, and with none pending the objects stay as they were. */
  lemma {:induction false} UnrestorableIsRefused(d: Device, counts: seq<nat>, limit: nat, events: seq<Event>,
                                                 pieces: seq<Piece>, accepted: seq<bool>,
                                                 refused: set<Unsigned32>, other: Outcome)
    requires WellKept(d) && Undisturbed(pieces)
    requires !Restorable(d.table) && AllInFloatRange(d.table) && CarriesBackup(d, counts, limit, pieces)
    ensures var written := Written(Run(Step(d, PrepareBackup), events), pieces);
            && Parse(Content(written.file)).Rejected?
            && (!written.pending ==>
                  var after := Step(Step(written, CompleteRestore(false, other)), LoopPass(accepted, refused));
                  after.table == written.table && after.stack == written.stack)
  {
    hide Contents, Build, Run, Written, Parse, ImageOf, AllInFloatRange, Restorable, CarriesBackup, Undisturbed,
         Distinct;
    var backup := Step(d, PrepareBackup);
    CarriesImage(d, counts, limit, pieces);
    WriteKept(d, PrepareBackup);
    RunWellKept(backup, events);
    WrittenHolds(Run(backup, events), pieces);
    ImageReads(d.table);
  }

  // ---- A restore that is rejected or aborted ----

  /** Nothing a later step can see differs: only staged entries that no pending restore
      counts may be different. */
  predicate Alike(d: Device, e: Device) {
    && Shaped(d) && Shaped(e)
    && e == d.(staged := e.staged)
    && (d.pending ==> e.staged[..d.stagedCount] == d.staged[..d.stagedCount])
  }

  lemma MixedPrefix(entries: seq<Entry>, a: seq<Entry>, b: seq<Entry>, k: nat)
    requires |a| == |b| && |entries| <= |a| && k <= |a|
    requires k <= |entries| || a[..k] == b[..k]
    ensures (entries + a[|entries|..])[..k] == (entries + b[|entries|..])[..k]
  {
    var n := |entries|;
    forall i | 0 <= i < k
      ensures (entries + a[n..])[i] == (entries + b[n..])[i]
    {
      if i >= n {
        assert a[..k][i] == b[..k][i];
      }
    }
  }

  lemma StepAlike(d: Device, e: Device, event: Event)
    requires Alike(d, e)
    ensures Alike(Step(d, event), Step(e, event))
  {
    hide Apply, StackAfter, Parse, Build, Write, SetSize, Create, Delete, SetValue;
    if event.CompleteRestore? && !event.aborted {
      var outcome := Settle(Parse(Content(d.file)), event.other);
      var n := |outcome.entries|;
      MixedPrefix(outcome.entries, d.staged, e.staged, n);
      if d.pending {
        MixedPrefix(outcome.entries, d.staged, e.staged, d.stagedCount);
      }
    }
  }

  /** With no restore pending, a rejected or aborted restore changes nothing that any later
      run of the device can show: table and stack are the same after every run. */
  lemma {:induction false} RejectedRestoreIsHarmless(d: Device, aborted: bool, other: Outcome, events: seq<Event>)
    requires Shaped(d) && !d.pending && (aborted || Parse(Content(d.file)).Rejected?)
    ensures Run(Step(d, CompleteRestore(aborted, other)), events).table == Run(d, events).table
    ensures Run(Step(d, CompleteRestore(aborted, other)), events).stack == Run(d, events).stack
  {
    hide Run;
    RunAlike(d, Step(d, CompleteRestore(aborted, other)), events);
  }

  lemma {:induction false} RunAlike(d: Device, e: Device, events: seq<Event>)
    requires Alike(d, e)
    ensures Alike(Run(d, events), Run(e, events))
    decreases |events|
  {
    hide Step;
    if events != [] {
      StepAlike(d, e, events[0]);
      RunAlike(Step(d, events[0]), Step(e, events[0]), events[1..]);
    }
  }

  /** With one pending, the entries read before the rejected line take the place of the
      accepted ones, and the next pass of the main loop applies the mixture. */
  lemma RejectedWhilePendingMixes(d: Device, other: Outcome)
    requires WellKept(d) && d.pending && Parse(Content(d.file)).Rejected?
    ensures var read := Parse(Content(d.file)).entries;
            var mixture := (read + d.staged[|read|..])[..d.stagedCount];
            var after := Step(Step(d, CompleteRestore(false, other)), LoopPass(Yes(MAX_CREATED), {}));
            Contents(after.table) == Overlay(map[], mixture)
  {
    hide Contents, Apply, Parse, StackAfter, Overlay, Distinct;
    var after := Step(d, CompleteRestore(false, other));
    StepWellKept(d, CompleteRestore(false, other));
    ApplyKept(after, after.staged[..after.stagedCount], Answers(Yes(MAX_CREATED), after.stagedCount));
  }

  /** For any device, on a pass on which the stack accepts every object: the rejected restore
      makes no difference exactly when none is pending, or the entries read before the failing
      line leave the map that the staged entries name as it was. */
  lemma RejectedIsHarmlessExactly(d: Device, other: Outcome)
    requires WellKept(d) && Parse(Content(d.file)).Rejected?
    ensures var read := Parse(Content(d.file)).entries;
            var mixture := (read + d.staged[|read|..])[..d.stagedCount];
            var pass := LoopPass(Yes(MAX_CREATED), {});
            Contents(Step(Step(d, CompleteRestore(false, other)), pass).table) == Contents(Step(d, pass).table) <==>
            (d.pending ==> Overlay(map[], mixture) == Overlay(map[], d.staged[..d.stagedCount]))
  {
    hide Contents, Apply, Parse, StackAfter, Overlay, Distinct;
    if d.pending {
      RejectedWhilePendingMixes(d, other);
      ApplyKept(d, d.staged[..d.stagedCount], Answers(Yes(MAX_CREATED), d.stagedCount));
    }
  }

  function First(): Slot {
    Slot(true, 100, Number(false, 425, -1))
  }

  function Second(): Slot {
    Slot(true, 200, Number(false, 7, 0))
  }

  function EntryOf(s: Slot): Entry {
    Entry(s.instance, Reread(s.value))
  }

  /** An image of Analog Value 100. */
  function GoodImage(): Bytes {
    Header() + Line(First())
  }

  /** An image of Analog Value 200 with a line behind it that is not one. */
  function BadImage(): Bytes {
    Header() + (Line(Second()) + [120])
  }

  lemma {:induction false} BadImageIsRejected()
    ensures Parse(BadImage()) == Rejected([EntryOf(Second())])
  {
    hide Line, Header, StartsWithName, Reread, InFloatRange;
    var entry := EntryOf(Second());
    assert BadImage()[..22] == Header() && BadImage()[22..] == Line(Second()) + [120];
    SmallInRange();
    StepLine(Second(), [120], []);
    assert [] + [entry] == [entry];
    LineEndOfOne();
    NotAName();
    assert ParseLines([120], [entry]) == Rejected([entry]);
  }

  lemma LineEndOfOne()
    ensures LineEnd([120]) == 1 && [120][..1] == [120]
  {
    assert [120][1..] == [];
  }

  lemma NotAName()
    ensures !StartsWithName([120])
  {
  }

  lemma {:induction false} GoodImageIsAccepted()
    ensures Parse(GoodImage()) == Accepted([EntryOf(First())])
  {
    hide Line, Header, StartsWithName, Reread, InFloatRange;
    var entry := EntryOf(First());
    assert GoodImage()[..22] == Header() && GoodImage()[22..] == Line(First()) + [];
    SmallInRange();
    StepLine(First(), [], []);
    assert [] + [entry] == [entry];
    NoLines([entry]);
  }

  /** A restore's file after the client wrote one chunk into it. */
  lemma FileWritten(d: Device, data: Chunk)
    requires WellKept(d) && |data| <= FILE_MAX_SIZE
    ensures var d' := Step(Step(d, PrepareRestore), WriteFile(WriteRequest(-1, data)));
            WellKept(d') && Content(d'.file) == data && d' == d.(file := d'.file)
  {
    hide Distinct, Contents, Content;
    var empty := Step(d, PrepareRestore);
    StepWellKept(d, PrepareRestore);
    AppendChunk(empty, true, data);
    StepWellKept(empty, WriteFile(WriteRequest(-1, data)));
    EmptyContent(empty.file);
    assert [] + data == data;
  }

  lemma EmptyContent(f: File)
    requires Valid(f) && f.length == 0
    ensures Content(f) == []
  {
  }

  /** Two restores completed before the main loop has applied the first. */
  function TwoRestores(d: Device, first: Chunk, second: Chunk, other: Outcome): (d': Device)
    requires Shaped(d)
    ensures Shaped(d')
  {
    var written := Step(Step(d, PrepareRestore), WriteFile(WriteRequest(-1, first)));
    Step(Step(Step(written, CompleteRestore(false, other)), PrepareRestore), WriteFile(WriteRequest(-1, second)))
  }

  lemma ImagesAreSmall()
    ensures |GoodImage()| < 100 && |BadImage()| < 100
  {
    hide Header, Line, InFloatRange, Round6;
    SmallInRange();
    LineLength(First());
    LineLength(Second());
  }

  /** Every device gets into the state in which a rejected restore does harm: one is pending, and
      the file holds an image that will be rejected. */
  lemma {:induction false} HarmIsReachable(d: Device, other: Outcome)
    requires WellKept(d)
    ensures |GoodImage()| < 100 && |BadImage()| < 100
    ensures var d' := TwoRestores(d, GoodImage(), BadImage(), other);
            && WellKept(d') && d'.pending && d'.stagedCount == 1 && d'.staged[0] == EntryOf(First())
            && Content(d'.file) == BadImage()
  {
    hide GoodImage, BadImage, Parse, Write, Content, Distinct, Contents, Reread, First;
    ImagesAreSmall();
    FileWritten(d, GoodImage());
    GoodImageIsAccepted();
    var first := Step(Step(d, PrepareRestore), WriteFile(WriteRequest(-1, GoodImage())));
    StepWellKept(first, CompleteRestore(false, other));
    FileWritten(Step(first, CompleteRestore(false, other)), BadImage());
  }

  /** So the harmlessness needs its condition: every device, about to apply an image of Analog
      Value 100, creates 200 instead after the second image is rejected. */
  lemma {:induction false} RejectedWhilePendingHarms(d: Device, other: Outcome)
    requires WellKept(d)
    ensures |GoodImage()| < 100 && |BadImage()| < 100
    ensures var ready := TwoRestores(d, GoodImage(), BadImage(), other);
            var pass := LoopPass(Yes(MAX_CREATED), {});
            && Parse(Content(ready.file)).Rejected?
            && Contents(Step(ready, pass).table) == map[100 := EntryOf(First()).value]
            && Contents(Step(Step(ready, CompleteRestore(false, other)), pass).table)
               == map[200 := EntryOf(Second()).value]
  {
    hide Contents, Apply, Parse, StackAfter, Distinct, Reread, GoodImage, BadImage, TwoRestores;
    HarmIsReachable(d, other);
    var ready := TwoRestores(d, GoodImage(), BadImage(), other);
    BadImageIsRejected();
    RejectedWhilePendingMixes(ready, other);
    var good, bad := EntryOf(First()), EntryOf(Second());
    assert ready.staged[..1] == [good];
    assert ([bad] + ready.staged[1..])[..1] == [bad];
    ApplyKept(ready, [good], Answers(Yes(MAX_CREATED), 1));
    assert Overlay(map[], [good]) == map[100 := good.value] && Overlay(map[], [bad]) == map[200 := bad.value];
  }

  lemma EmptyImageIsAccepted()
    ensures Parse(Header()) == Accepted([])
  {
    hide Header;
    assert Header()[..22] == Header() && Header()[22..] == [];
    NoLines([]);
  }

  /** From power-on: an object is created, an image that does not name it is restored, and the
      stack refuses to remove it. Then the stack still has it and the device will not delete it. */
  lemma {:induction false} RefusalFromPowerOn(instance: Unsigned32, other: Outcome, accepted: seq<bool>)
    ensures Shaped(PowerOn())
    ensures var created := Step(PowerOn(), CreateObject(instance, true));
            var written := Step(Step(created, PrepareRestore), WriteFile(WriteRequest(-1, Header())));
            var after := Step(Step(written, CompleteRestore(false, other)), LoopPass(accepted, {instance}));
            instance in after.stack && Delete(after.table, instance) == None
  {
    hide Contents, Find, Header, Parse, Write, Content, Distinct;
    PowerOnWellKept();
    CreateInStep(PowerOn().table, {}, instance);
    FreeAtPowerOn();
    var created := Step(PowerOn(), CreateObject(instance, true));
    StepWellKept(PowerOn(), CreateObject(instance, true));
    FileWritten(created, Header());
    var written := Step(Step(created, PrepareRestore), WriteFile(WriteRequest(-1, Header())));
    EmptyImageIsAccepted();
    StepWellKept(written, CompleteRestore(false, other));
    var staged := Step(written, CompleteRestore(false, other));
    assert staged.staged[..0] == [];
    RefusalIsReachable(staged, accepted, instance);
  }

  lemma FreeAtPowerOn()
    ensures Free(PowerOn().table) == Some(0)
  {
  }

  lemma SmallInRange()
    ensures InFloatRange(Round6(First().value)) && InFloatRange(Round6(Second().value))
  {
    assert |Digits(42)| == 2 && |Digits(425)| == 3;
  }
}
