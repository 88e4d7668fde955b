/** The device's configuration as a state machine: clients create, delete and write Analog
    Values and the file, back the configuration up and restore it; the stack keeps its own
    set of objects and may refuse to add or to remove one. */
module Restore {
  import opened Octets
  import opened Decimal
  import opened AnalogValues
  import opened Image
  import opened FileBuffer

  /** `staged` is the whole array; only its first `stagedCount` entries belong to the image
      that was accepted last. */
  datatype Device = Device(
    table: Table,
    file: File,
    staged: seq<Entry>,
    stagedCount: nat,
    pending: bool,
    stack: set<Unsigned32>)

  predicate Shaped(d: Device) {
    |d.table| == MAX_CREATED && Valid(d.file) && |d.staged| == MAX_CREATED && d.stagedCount <= MAX_CREATED
  }

  /** In-use instances are distinct and are exactly the set `keys`. */
  predicate InStep(t: Table, keys: set<Unsigned32>) {
    Distinct(t) && Contents(t).Keys == keys
  }

  /** In-use instances are distinct and the stack has each of them. */
  predicate WellKept(d: Device) {
    Shaped(d) && Distinct(d.table) && Contents(d.table).Keys <= d.stack
  }

  /** The Analog Values that the stack has and the table does not. */
  function Strays(d: Device): set<Unsigned32> {
    d.stack - Contents(d.table).Keys
  }

  // ---- The callbacks ----

  /** The CreateObject callback: a slot for a new object, or a refusal. */
  function Create(t: Table, instance: Unsigned32): Option<Table> {
    if Find(t, instance).Some? then None
    else
      match Free(t)
      case None => None
      case Some(i) => Some(t[i := Slot(true, instance, Number(false, 0, 0))])
  }

  /** The DeleteObject callback; the slot keeps its old instance and value. */
  function Delete(t: Table, instance: Unsigned32): Option<Table> {
    match Find(t, instance)
    case None => None
    case Some(i) => Some(t[i := t[i].(inUse := false)])
  }

  function SetValue(t: Table, instance: Unsigned32, value: Value): Option<Table> {
    match Find(t, instance)
    case None => None
    case Some(i) => Some(t[i := t[i].(value := value)])
  }

  // ---- Applying a restored image ----

  predicate Named(entries: seq<Entry>, instance: Unsigned32) {
    exists i :: 0 <= i < |entries| && entries[i].instance == instance
  }

  /** Takes out of use what the image does not name. */
  function Purge(t: Table, entries: seq<Entry>): (r: Table)
    ensures |r| == |t|
    ensures forall i :: 0 <= i < |t| ==>
              r[i] == if t[i].inUse && !Named(entries, t[i].instance) then t[i].(inUse := false) else t[i]
  {
    seq(|t|, i requires 0 <= i < |t| =>
      if t[i].inUse && !Named(entries, t[i].instance) then t[i].(inUse := false) else t[i])
  }

  /** Puts one entry back; `accepted` is the stack's answer if it is asked to add the object. */
  function Place(t: Table, entry: Entry, accepted: bool): Table {
    match Find(t, entry.instance)
    case Some(i) => t[i := t[i].(value := entry.value)]
    case None =>
      match Free(t)
      case None => t
      case Some(i) => if accepted then t[i := Slot(true, entry.instance, entry.value)] else t
  }

  function PlaceAll(t: Table, entries: seq<Entry>, accepted: seq<bool>): Table
    requires |accepted| == |entries|
    decreases |entries|
  {
    if entries == [] then t else PlaceAll(Place(t, entries[0], accepted[0]), entries[1..], accepted[1..])
  }

  function Apply(t: Table, entries: seq<Entry>, accepted: seq<bool>): Table
    requires |accepted| == |entries|
  {
    PlaceAll(Purge(t, entries), entries, accepted)
  }

  // ---- One step of the device ----

  /** `finished` says whether the stack completes an accepted creation or rolls it back;
      a write of the file stays inside its buffer or is refused; `other` says what the device
      makes of an image with a value that has no number here;
      `accepted` answers the AddObject requests of a restore, entry by entry, and `refused`
      holds the instances whose RemoveObject fails, a result the device ignores. */
  datatype Event =
    | CreateObject(instance: Unsigned32, finished: bool)
    | DeleteObject(instance: Unsigned32)
    | WriteValue(instance: Unsigned32, value: Value)
    | WriteFile(write: FileWrite)
    | WriteFileSize(size: Unsigned32)
    | PrepareBackup
    | PrepareRestore
    | CompleteRestore(aborted: bool, other: Outcome)
    | LoopPass(accepted: seq<bool>, refused: set<Unsigned32>)

  /** The stack asks the application only about objects it does not have (create) or has
      (delete); a rollback erases its object whatever the callback answers. */
  function StepObject(d: Device, e: Event): Device
    requires e.CreateObject? || e.DeleteObject? || e.WriteValue?
  {
    match e
    case CreateObject(instance, finished) =>
      if instance in d.stack then d
      else
        (match Create(d.table, instance)
         case None => d
         case Some(t) =>
           if finished then d.(table := t, stack := d.stack + {instance})
           else d.(table := match Delete(t, instance) case None => t case Some(t') => t'))
    case DeleteObject(instance) =>
      if instance !in d.stack then d
      else
        (match Delete(d.table, instance)
         case None => d
         case Some(t) => d.(table := t, stack := d.stack - {instance}))
    case WriteValue(instance, value) =>
      match SetValue(d.table, instance, value)
      case None => d
      case Some(t) => d.(table := t)
  }

  function WithFile(d: Device, f: Option<File>): Device {
    if f.Some? then d.(file := f.value) else d
  }

  function WithWrite(d: Device, outcome: WriteOutcome): Device {
    if outcome.Done? then d.(file := outcome.file) else d
  }

  /** A parse overwrites the staging array as it goes, and counts only what it accepts. */
  function Stage(d: Device, other: Outcome): Device
    requires Shaped(d)
  {
    var outcome := Settle(Parse(Content(d.file)), other);
    var staged := outcome.entries + d.staged[|outcome.entries|..];
    if outcome.Accepted? then d.(staged := staged, stagedCount := |outcome.entries|, pending := true)
    else d.(staged := staged)
  }

  /** The answers of the stack, completed with refusals if there are too few. */
  function Answers(accepted: seq<bool>, n: nat): (r: seq<bool>)
    ensures |r| == n
  {
    seq(n, i => 0 <= i < |accepted| && accepted[i])
  }

  function StepLoop(d: Device, accepted: seq<bool>, refused: set<Unsigned32>): Device
    requires Shaped(d)
  {
    if !d.pending then d
    else
      var entries, answers := d.staged[..d.stagedCount], Answers(accepted, d.stagedCount);
      d.(table := Apply(d.table, entries, answers), pending := false,
         stack := StackAfter(d.stack, d.table, entries, answers, refused))
  }

  /** RemoveObject for every purged slot, then AddObject for every placed one. */
  function StackAfter(stack: set<Unsigned32>, t: Table, entries: seq<Entry>, accepted: seq<bool>,
                      refused: set<Unsigned32>): set<Unsigned32>
    requires |accepted| == |entries|
  {
    AddedTo(stack - (Removed(t, entries) - refused), Purge(t, entries), entries, accepted)
  }

  function Removed(t: Table, entries: seq<Entry>): set<Unsigned32> {
    set i | 0 <= i < |t| && t[i].inUse && !Named(entries, t[i].instance) :: t[i].instance
  }

  function AddedTo(stack: set<Unsigned32>, t: Table, entries: seq<Entry>, accepted: seq<bool>): set<Unsigned32>
    requires |accepted| == |entries|
    decreases |entries|
  {
    if entries == [] then stack
    else
      var added := Find(t, entries[0].instance).None? && Free(t).Some? && accepted[0];
      AddedTo(if added then stack + {entries[0].instance} else stack,
              Place(t, entries[0], accepted[0]), entries[1..], accepted[1..])
  }

  function Step(d: Device, e: Event): (d': Device)
    requires Shaped(d)
    ensures Shaped(d')
  {
    match e
    case WriteFile(w) => WithWrite(d, Write(d.file, w.start, w.data))
    case WriteFileSize(size) => WithFile(d, SetSize(d.file, size))
    case PrepareBackup => d.(file := Build(d.file, d.table))
    case PrepareRestore => d.(file := d.file.(length := 0))
    case CompleteRestore(aborted, other) => if aborted then d else Stage(d, other)
    case LoopPass(accepted, refused) =>
      var entries, answers := d.staged[..d.stagedCount], Answers(accepted, d.stagedCount);
      PlaceAllShape(Purge(d.table, entries), entries, answers);
      StepLoop(d, accepted, refused)
    case _ => StepObject(d, e)
  }

  lemma {:induction false} PlaceAllShape(t: Table, entries: seq<Entry>, accepted: seq<bool>)
    requires |accepted| == |entries|
    ensures |PlaceAll(t, entries, accepted)| == |t|
    decreases |entries|
  {
    if entries != [] {
      PlaceAllShape(Place(t, entries[0], accepted[0]), entries[1..], accepted[1..]);
    }
  }

  function Run(d: Device, events: seq<Event>): (d': Device)
    requires Shaped(d)
    ensures Shaped(d')
    decreases |events|
  {
    if events == [] then d else Run(Step(d, events[0]), events[1..])
  }

  // ---- The table and the stack stay in step ----

  lemma CreateInStep(t: Table, stack: set<Unsigned32>, instance: Unsigned32)
    requires InStep(t, stack) && instance !in stack
    ensures Find(t, instance).None?
    ensures Create(t, instance).Some? ==>
              && InStep(Create(t, instance).value, stack + {instance})
              && Contents(Create(t, instance).value) == Contents(t)[instance := Number(false, 0, 0)]
  {
    hide Contents, Find, Free;
    FindInContents(t, instance);
    if Create(t, instance).Some? {
      ContentsUpdate(t, Free(t).value, Slot(true, instance, Number(false, 0, 0)));
    }
  }

  lemma DeleteInStep(t: Table, stack: set<Unsigned32>, instance: Unsigned32)
    requires InStep(t, stack) && instance in stack
    ensures Delete(t, instance).Some?
    ensures InStep(Delete(t, instance).value, stack - {instance})
    ensures Contents(Delete(t, instance).value) == Contents(t) - {instance}
  {
    hide Contents, Find;
    FindInContents(t, instance);
    var i := Find(t, instance).value;
    ContentsUpdate(t, i, t[i].(inUse := false));
  }

  lemma SetValueInStep(t: Table, stack: set<Unsigned32>, instance: Unsigned32, value: Value)
    requires InStep(t, stack)
    ensures SetValue(t, instance, value).Some? <==> instance in stack
    ensures instance in stack ==>
              && InStep(SetValue(t, instance, value).value, stack)
              && Contents(SetValue(t, instance, value).value) == Contents(t)[instance := value]
  {
    hide Contents, Find;
    FindInContents(t, instance);
    if instance in stack {
      var i := Find(t, instance).value;
      ContentsUpdate(t, i, t[i].(value := value));
      assert (Contents(t) - {instance})[instance := value] == Contents(t)[instance := value];
    }
  }

  lemma PurgeInStep(t: Table, stack: set<Unsigned32>, entries: seq<Entry>)
    requires InStep(t, stack)
    ensures InStep(Purge(t, entries), stack - Removed(t, entries))
    ensures forall instance :: instance in stack - Removed(t, entries) ==> Named(entries, instance)
  {
    hide Contents, Named;
    var p := Purge(t, entries);
    assert Distinct(p);
    ContentsOf(t);
    ContentsOf(p);
    forall instance
      ensures instance in Contents(p) <==> instance in stack - Removed(t, entries)
      ensures instance in Contents(p) ==> Named(entries, instance)
    {
      PurgedOne(t, entries, instance);
    }
    assert Contents(p).Keys == stack - Removed(t, entries);
  }

  lemma PurgedOne(t: Table, entries: seq<Entry>, instance: Unsigned32)
    requires Distinct(t) && Distinct(Purge(t, entries))
    ensures instance in Contents(Purge(t, entries)) <==> instance in Contents(t) && instance !in Removed(t, entries)
    ensures instance in Contents(Purge(t, entries)) ==> Named(entries, instance)
  {
    hide Contents, Named;
    var p := Purge(t, entries);
    ContentsOf(t);
    ContentsOf(p);
    if instance in Contents(p) {
      var k :| 0 <= k < |p| && Holds(p[k], instance);
      assert Holds(t[k], instance) && Named(entries, instance);
    }
    if instance in Contents(t) && instance !in Removed(t, entries) {
      var k :| 0 <= k < |t| && Holds(t[k], instance);
      assert Holds(p[k], instance);
    }
  }

  /** Placing an entry sets it; without the stack's consent a missing one stays missing. */
  lemma PlaceInStep(t: Table, stack: set<Unsigned32>, entry: Entry, accepted: bool)
    requires InStep(t, stack)
    ensures var added := Find(t, entry.instance).None? && Free(t).Some? && accepted;
            var t' := Place(t, entry, accepted);
            && InStep(t', if added then stack + {entry.instance} else stack)
            && Contents(t') == if added || entry.instance in stack then Contents(t)[entry.instance := entry.value]
                               else Contents(t)
  {
    hide Contents, Find, Free;
    FindInContents(t, entry.instance);
    match Find(t, entry.instance)
    case Some(i) =>
      ContentsUpdate(t, i, t[i].(value := entry.value));
      assert (Contents(t) - {entry.instance})[entry.instance := entry.value] ==
          Contents(t)[entry.instance := entry.value];
    case None =>
      if Free(t).Some? && accepted {
        ContentsUpdate(t, Free(t).value, Slot(true, entry.instance, entry.value));
      }
  }

  lemma {:induction false} PlaceAllInStep(t: Table, stack: set<Unsigned32>, entries: seq<Entry>, accepted: seq<bool>)
    requires InStep(t, stack) && |accepted| == |entries|
    ensures InStep(PlaceAll(t, entries, accepted), AddedTo(stack, t, entries, accepted))
    decreases |entries|
  {
    hide InStep, Place, Find, Free;
    if entries != [] {
      PlaceInStep(t, stack, entries[0], accepted[0]);
      var added := Find(t, entries[0].instance).None? && Free(t).Some? && accepted[0];
      PlaceAllInStep(Place(t, entries[0], accepted[0]), if added then stack + {entries[0].instance} else stack,
                     entries[1..], accepted[1..]);
    }
  }

  lemma {:induction false} AddedToSplits(stack: set<Unsigned32>, extra: set<Unsigned32>, t: Table,
                                         entries: seq<Entry>, accepted: seq<bool>)
    requires |accepted| == |entries|
    ensures AddedTo(stack + extra, t, entries, accepted) == AddedTo(stack, t, entries, accepted) + extra
    decreases |entries|
  {
    hide Place, Find, Free;
    if entries != [] {
      var added := Find(t, entries[0].instance).None? && Free(t).Some? && accepted[0];
      var next := if added then stack + {entries[0].instance} else stack;
      AddedToSplits(next, extra, Place(t, entries[0], accepted[0]), entries[1..], accepted[1..]);
      assert stack + extra + {entries[0].instance} == stack + {entries[0].instance} + extra;
    }
  }

  /** What one pass removes from the table although the stack refuses to. */
  function RefusedBy(d: Device, e: Event): set<Unsigned32>
    requires Shaped(d)
  {
    if e.LoopPass? && d.pending then Removed(d.table, d.staged[..d.stagedCount]) * e.refused else {}
  }

  /** After a pass the stack has the table's objects, its strays, and what it refused to remove. */
  lemma {:induction false} PassSplits(d: Device, accepted: seq<bool>, refused: set<Unsigned32>)
    requires WellKept(d) && d.pending
    ensures var e := LoopPass(accepted, refused);
            var d' := Step(d, e);
            Distinct(d'.table) && d'.stack == Contents(d'.table).Keys + Strays(d) + RefusedBy(d, e)
  {
    hide Contents, PlaceAll, AddedTo, Purge, Removed, Distinct;
    var entries, answers := d.staged[..d.stagedCount], Answers(accepted, d.stagedCount);
    var keys, gone := Contents(d.table).Keys, Removed(d.table, entries);
    var extra := Strays(d) + gone * refused;
    PurgeInStep(d.table, keys, entries);
    PlaceAllInStep(Purge(d.table, entries), keys - gone, entries, answers);
    AddedToSplits(keys - gone, extra, Purge(d.table, entries), entries, answers);
    assert d.stack - (gone - refused) == keys - gone + extra by {
      RemovedInUse(d.table, entries);
    }
  }

  lemma RemovedInUse(t: Table, entries: seq<Entry>)
    requires Distinct(t)
    ensures Removed(t, entries) <= Contents(t).Keys
  {
    hide Contents;
    ContentsOf(t);
  }

  lemma {:induction false} NoneInUse(t: Table)
    requires forall i :: 0 <= i < |t| ==> !t[i].inUse
    ensures Contents(t) == map[]
    decreases |t|
  {
    if t != [] {
      assert forall i :: 0 <= i < |t[1..]| ==> t[1..][i] == t[i + 1];
      NoneInUse(t[1..]);
    }
  }

  /** Nothing created, an empty file, nothing staged. */
  function PowerOn(): Device {
    Device(seq(MAX_CREATED, _ => Slot(false, 0, Number(false, 0, 0))), File(ZeroOctets(FILE_MAX_SIZE), 0),
           seq(MAX_CREATED, _ => Entry(0, Number(false, 0, 0))), 0, false, {})
  }

  lemma PowerOnWellKept()
    ensures WellKept(PowerOn()) && Contents(PowerOn().table) == map[] && InStep(PowerOn().table, PowerOn().stack)
  {
    NoneInUse(PowerOn().table);
  }

  lemma {:induction false} StepWellKept(d: Device, e: Event)
    requires WellKept(d)
    ensures WellKept(Step(d, e))
    ensures Strays(Step(d, e)) == Strays(d) + RefusedBy(d, e) - Contents(Step(d, e).table).Keys
  {
    hide Contents, Find, Free, Parse, Build, Write, SetSize, PlaceAll, AddedTo, Purge, Removed;
    var keys := Contents(d.table).Keys;
    match e
    case CreateObject(instance, finished) =>
      if instance !in d.stack {
        CreateInStep(d.table, keys, instance);
        if Create(d.table, instance).Some? && !finished {
          DeleteInStep(Create(d.table, instance).value, keys + {instance}, instance);
          assert keys + {instance} - {instance} == keys;
        }
      }
    case DeleteObject(instance) =>
      FindInContents(d.table, instance);
      if instance in keys {
        DeleteInStep(d.table, keys, instance);
      }
    case WriteValue(instance, value) =>
      SetValueInStep(d.table, keys, instance, value);
    case LoopPass(accepted, refused) =>
      if d.pending {
        PassSplits(d, accepted, refused);
      }
    case _ =>
  }

  /** Over every run, with any answers from the stack: in-use instances are distinct and the
      stack has each of them. */
  lemma {:induction false} RunWellKept(d: Device, events: seq<Event>)
    requires WellKept(d)
    ensures WellKept(Run(d, events))
    decreases |events|
  {
    hide Strays, Contents, Step, Shaped, Distinct;
    if events != [] {
      StepWellKept(d, events[0]);
      RunWellKept(Step(d, events[0]), events[1..]);
    }
  }

  // ---- What the stack has and the table does not ----

  /** The strays after a run, from the removals that the stack refused: one that it refused is a
      stray until a later restore adds the object again. */
  function StraysAfter(d: Device, strays: set<Unsigned32>, events: seq<Event>): set<Unsigned32>
    requires Shaped(d)
    decreases |events|
  {
    if events == [] then strays
    else
      var d' := Step(d, events[0]);
      StraysAfter(d', strays + RefusedBy(d, events[0]) - Contents(d'.table).Keys, events[1..])
  }

  predicate NoneRefused(events: seq<Event>) {
    forall i :: 0 <= i < |events| && events[i].LoopPass? ==> events[i].refused == {}
  }

  lemma {:induction false} RefusalsAreStrays(d: Device, events: seq<Event>)
    requires WellKept(d)
    ensures Strays(Run(d, events)) == StraysAfter(d, Strays(d), events)
    ensures NoneRefused(events) ==> Strays(Run(d, events)) <= Strays(d)
    decreases |events|
  {
    hide Strays, Contents, Step, Shaped, Distinct, Removed;
    if events != [] {
      StepWellKept(d, events[0]);
      RefusalsAreStrays(Step(d, events[0]), events[1..]);
    }
  }

  /** Over every run: the table's objects and the refused removals are exactly what the stack
      has, and without a refused removal the table is the stack's set of Analog Values. */
  lemma {:induction false} RunInStep(d: Device, events: seq<Event>)
    requires WellKept(d)
    ensures var d' := Run(d, events);
            && Distinct(d'.table)
            && d'.stack == Contents(d'.table).Keys + StraysAfter(d, Strays(d), events)
            && (NoneRefused(events) && InStep(d.table, d.stack) ==> InStep(d'.table, d'.stack))
  {
    hide Contents, Run, Distinct, StraysAfter, NoneRefused;
    RunWellKept(d, events);
    RefusalsAreStrays(d, events);
  }

  /** The refusals for a table that disagrees with the stack: the one of CreateObject never
      happens in any run, and the one of DeleteObject exactly for a removal that the stack
      refused. Otherwise a creation is refused exactly when no slot is free. */
  lemma {:induction false} NeverDisagrees(d: Device, events: seq<Event>, instance: Unsigned32)
    requires WellKept(d)
    ensures var d' := Run(d, events);
            && (instance !in d'.stack ==> Find(d'.table, instance) == None)
            && (instance !in d'.stack ==> (Create(d'.table, instance).None? <==> Free(d'.table) == None))
            && (instance in d'.stack ==>
                  (Delete(d'.table, instance).None? <==> instance in StraysAfter(d, Strays(d), events)))
            && (NoneRefused(events) && InStep(d.table, d.stack) && instance in d'.stack ==>
                  Delete(d'.table, instance).Some?)
  {
    hide Contents, Find, Free, Run, StraysAfter, NoneRefused;
    RunWellKept(d, events);
    RefusalsAreStrays(d, events);
    var d' := Run(d, events);
    FindInContents(d'.table, instance);
  }

  /** A refused removal does happen to any object that an accepted image does not name, and then
      the device refuses to delete it. */
  lemma {:induction false} RefusalIsReachable(d: Device, accepted: seq<bool>, instance: Unsigned32)
    requires WellKept(d) && d.pending && instance in Contents(d.table)
    requires !Named(d.staged[..d.stagedCount], instance)
    ensures var d' := Step(d, LoopPass(accepted, {instance}));
            instance in d'.stack && Delete(d'.table, instance) == None
  {
    hide Contents, PlaceAll, Find, Free, AddedTo, Purge, Removed, Named, Distinct;
    var e := LoopPass(accepted, {instance});
    var entries := d.staged[..d.stagedCount];
    StepWellKept(d, e);
    UnnamedIsRemoved(d.table, entries, instance);
    PurgeInStep(d.table, Contents(d.table).Keys, entries);
    NotPlaced(Purge(d.table, entries), entries, Answers(accepted, d.stagedCount), instance);
    PassSplits(d, accepted, {instance});
    FindInContents(Step(d, e).table, instance);
  }

  lemma UnnamedIsRemoved(t: Table, entries: seq<Entry>, instance: Unsigned32)
    requires Distinct(t) && instance in Contents(t) && !Named(entries, instance)
    ensures instance in Removed(t, entries)
  {
    hide Contents;
    ContentsOf(t);
    var k :| 0 <= k < |t| && Holds(t[k], instance);
  }

  lemma {:induction false} NotPlaced(t: Table, entries: seq<Entry>, accepted: seq<bool>, instance: Unsigned32)
    requires Distinct(t) && |accepted| == |entries| && instance !in Contents(t) && !Named(entries, instance)
    ensures instance !in Contents(PlaceAll(t, entries, accepted))
    decreases |entries|
  {
    hide Contents, Find, Free, Place;
    if entries != [] {
      PlaceInStep(t, Contents(t).Keys, entries[0], accepted[0]);
      assert entries[0].instance != instance;
      assert forall i :: 0 <= i < |entries[1..]| ==> entries[1..][i] == entries[i + 1];
      NotPlaced(Place(t, entries[0], accepted[0]), entries[1..], accepted[1..], instance);
    }
  }

  // ---- What each event does ----

  /** A creation adds the object with value zero on both sides, or nothing when it is rolled back or
      there is no room; a deletion takes away exactly that object; a write sets exactly that value. */
  lemma {:induction false} ObjectEvents(d: Device, instance: Unsigned32, value: Value)
    requires WellKept(d)
    ensures var created := Step(d, CreateObject(instance, true));
            if instance in d.stack || Free(d.table).None? then created == d
            else Contents(created.table) == Contents(d.table)[instance := Number(false, 0, 0)] &&
                 created.stack == d.stack + {instance}
    ensures var undone := Step(d, CreateObject(instance, false));
            Contents(undone.table) == Contents(d.table) && undone.stack == d.stack
    ensures var deleted := Step(d, DeleteObject(instance));
            if instance !in Contents(d.table) then deleted == d
            else Contents(deleted.table) == Contents(d.table) - {instance} && deleted.stack == d.stack - {instance}
    ensures var written := Step(d, WriteValue(instance, value));
            && written.stack == d.stack
            && Contents(written.table) ==
               if instance in Contents(d.table) then Contents(d.table)[instance := value] else Contents(d.table)
  {
    hide Contents, Find, Free, Distinct;
    var keys := Contents(d.table).Keys;
    FindInContents(d.table, instance);
    SetValueInStep(d.table, keys, instance, value);
    if instance in keys {
      DeleteInStep(d.table, keys, instance);
    }
    if instance !in d.stack {
      CreateInStep(d.table, keys, instance);
      if Create(d.table, instance).Some? {
        DeleteInStep(Create(d.table, instance).value, keys + {instance}, instance);
        assert Contents(d.table)[instance := Number(false, 0, 0)] - {instance} == Contents(d.table);
      }
    }
  }

  /** File events do to the file what the file laws say, and to nothing else. */
  lemma {:induction false} FileEvents(d: Device, w: FileWrite, size: Unsigned32)
    requires Shaped(d)
    ensures var written := Step(d, WriteFile(w));
            && written == d.(file := written.file)
            && match Write(d.file, w.start, w.data)
               case Done(f) => written.file == f
               case _ => written.file == d.file
    ensures var sized := Step(d, WriteFileSize(size));
            && sized == d.(file := sized.file)
            && (size > 4096 ==> sized.file == d.file)
            && (size <= 4096 ==> |Content(sized.file)| == size)
    ensures Step(d, PrepareRestore) == d.(file := Step(d, PrepareRestore).file)
    ensures Content(Step(d, PrepareRestore).file) == []
  {
    hide Write;
  }

  /** A pending restore is applied once: the next pass finds none, and a pass without one does
      nothing. */
  lemma {:induction false} AppliedOnce(d: Device, a: seq<bool>, b: seq<bool>, refused: set<Unsigned32>)
    requires Shaped(d)
    ensures !Step(d, LoopPass(a, refused)).pending
    ensures Step(Step(d, LoopPass(a, refused)), LoopPass(b, refused)) == Step(d, LoopPass(a, refused))
    ensures !d.pending ==> Step(d, LoopPass(a, refused)) == d
  {
    hide Apply, StackAfter, Answers;
  }
}
