/** The device's configuration as it is held: fixed arrays and counters that the callbacks
    update in place. Every method does to them what the state machine says. */
module DeviceStore {
  import opened Octets
  import opened Decimal
  import opened AnalogValues
  import opened Image
  import opened FileBuffer
  import opened Restore

  datatype WriteReply = Acknowledged(start: nat) | FileFull | OutsideBuffer

  class Device {
    const created: array<Slot>
    const fileData: array<byte>
    var fileDataLength: nat
    const restored: array<Entry>
    var restoredCount: nat
    var restorePending: bool
    /** The Analog Values the stack holds. */
    var stack: set<Unsigned32>

    ghost predicate Valid()
      reads this
    {
      && created.Length == MAX_CREATED && fileData.Length == FILE_MAX_SIZE && restored.Length == MAX_CREATED
      && fileDataLength <= FILE_MAX_SIZE && restoredCount <= MAX_CREATED
    }

    ghost function State(): (d: Restore.Device)
      reads this, created, fileData, restored
      requires Valid()
      ensures Shaped(d)
    {
      Restore.Device(created[..], File(fileData[..], fileDataLength),
                     restored[..], restoredCount, restorePending, stack)
    }

    constructor ()
      ensures Valid() && fresh(created) && fresh(fileData) && fresh(restored)
      ensures State() == PowerOn() && WellKept(State())
    {
      created := new Slot[MAX_CREATED](_ => Slot(false, 0, Number(false, 0, 0)));
      fileData := new byte[FILE_MAX_SIZE](_ => 0);
      restored := new Entry[MAX_CREATED](_ => Entry(0, Number(false, 0, 0)));
      fileDataLength, restoredCount, restorePending, stack := 0, 0, false, {};
      new;
      assert created[..] == PowerOn().table && restored[..] == PowerOn().staged;
      assert fileData[..] == PowerOn().file.buffer;
      PowerOnWellKept();
    }

    // ---- The table ----

    method FindCreated(instance: Unsigned32) returns (r: Option<nat>)
      requires Valid()
      ensures r == Find(created[..], instance)
    {
      for i := 0 to created.Length
        invariant forall k :: 0 <= k < i ==> !Holds(created[k], instance)
      {
        if created[i].inUse && created[i].instance == instance {
          FindIs(created[..], instance, i);
          return Some(i);
        }
      }
      return None;
    }

    method FindFree() returns (r: Option<nat>)
      requires Valid()
      ensures r == Free(created[..])
    {
      for i := 0 to created.Length
        invariant forall k :: 0 <= k < i ==> created[k].inUse
      {
        if !created[i].inUse {
          FreeIs(created[..], i);
          return Some(i);
        }
      }
      return None;
    }

    /** The CreateObject callback. */
    method OnCreate(instance: Unsigned32) returns (ok: bool)
      requires Valid()
      modifies created
      ensures Valid()
      ensures match Create(old(created[..]), instance)
              case None => !ok && created[..] == old(created[..])
              case Some(t) => ok && created[..] == t
    {
      hide Find, Free;
      var tracked := FindCreated(instance);
      if tracked.Some? { return false; }
      var slot := FindFree();
      if slot.None? { return false; }
      created[slot.value] := Slot(true, instance, Number(false, 0, 0));
      return true;
    }

    /** The DeleteObject callback. */
    method OnDelete(instance: Unsigned32) returns (ok: bool)
      requires Valid()
      modifies created
      ensures Valid()
      ensures match Delete(old(created[..]), instance)
              case None => !ok && created[..] == old(created[..])
              case Some(t) => ok && created[..] == t
    {
      hide Find;
      var slot := FindCreated(instance);
      if slot.None? { return false; }
      created[slot.value] := created[slot.value].(inUse := false);
      return true;
    }

    method OnWriteValue(instance: Unsigned32, value: Value) returns (ok: bool)
      requires Valid()
      modifies created
      ensures Valid()
      ensures match SetValue(old(created[..]), instance, value)
              case None => !ok && created[..] == old(created[..])
              case Some(t) => ok && created[..] == t
    {
      hide Find;
      var slot := FindCreated(instance);
      if slot.None? { return false; }
      created[slot.value] := created[slot.value].(value := value);
      return true;
    }

    // ---- The file ----

    method ReadFile(start: nat, count: nat, limit: nat) returns (data: Bytes, endOfFile: bool)
      requires Valid()
      ensures (data, endOfFile) == Read(fileData[..fileDataLength], start, count, limit)
    {
      if start >= fileDataLength { return [], true; }
      var available := fileDataLength - start;
      var toCopy := available;
      if toCopy > count { toCopy := count; }
      if toCopy > limit { toCopy := limit; }
      assert fileData[..fileDataLength][start..start + toCopy] == fileData[start..start + toCopy];
      return fileData[start..start + toCopy], start + toCopy >= fileDataLength;
    }

    /** `memcpy` into the buffer. */
    method Copy(at: nat, data: Bytes)
      requires Valid() && at + |data| <= FILE_MAX_SIZE
      modifies fileData
      ensures fileData[..] == Splice(old(fileData[..]), at, data)
    {
      for i := 0 to |data|
        invariant fileData[..] == Splice(old(fileData[..]), at, data[..i])
      {
        ghost var before := fileData[..];
        fileData[at + i] := data[i];
        SpliceOneMore(old(fileData[..]), at, data, i);
        assert fileData[..] == before[at + i := data[i]];
      }
      assert data[..|data|] == data;
    }

    /** In the case `OutsideBuffer` the model stops where the source copies outside its buffer. */
    method OnWriteFile(start: FileStart, data: Chunk) returns (reply: WriteReply)
      requires Valid()
      modifies this`fileDataLength, fileData
      ensures Valid()
      ensures match Write(old(State().file), start, data)
              case Done(f) => reply == Acknowledged(old(WriteAt(State().file, start))) && State().file == f
              case Full => reply == FileFull && State().file == old(State().file)
              case Outside => reply == OutsideBuffer && State().file == old(State().file)
    {
      hide Splice;
      var at := if start == -1 then fileDataLength else start % 0x1_0000_0000;
      assert at == WriteAt(State().file, start);
      if (at + |data|) % 0x1_0000_0000 > FILE_MAX_SIZE { return FileFull; }
      if at + |data| > FILE_MAX_SIZE { return OutsideBuffer; }
      Copy(at, data);
      if at + |data| > fileDataLength {
        fileDataLength := at + |data|;
      }
      return Acknowledged(at);
    }

    method OnWriteFileSize(size: Unsigned32) returns (ok: bool)
      requires Valid()
      modifies this`fileDataLength, fileData
      ensures Valid()
      ensures match SetSize(old(State().file), size)
              case None => !ok && State().file == old(State().file)
              case Some(f) => ok && State().file == f
    {
      if size > FILE_MAX_SIZE { return false; }
      if size > fileDataLength {
        Copy(fileDataLength, ZeroOctets(size - fileDataLength));
      }
      fileDataLength := size;
      return true;
    }

    /** `snprintf` at the end of what is built so far. */
    method Print(length: nat, text: Bytes)
      requires Valid() && length < FILE_MAX_SIZE
      modifies fileData
      ensures fileData[..] == Printed(old(fileData[..]), length, text)
    {
      var room := FILE_MAX_SIZE - length;
      Copy(length, (if |text| < room then text else text[..room - 1]) + [0]);
    }

    method BuildConfigurationImage()
      requires Valid()
      modifies this`fileDataLength, fileData
      ensures Valid()
      ensures State().file == Build(old(State().file), created[..])
    {
      hide Printed, Line, Header;
      ghost var table := created[..];
      Print(0, Header());
      ghost var first := fileData[..];
      var length: nat := 22;
      for i := 0 to MAX_CREATED
        modifies fileData
        invariant BuildLines(first, 22, table) == BuildLines(fileData[..], length, table[i..])
      {
        assert table[i..][1..] == table[i + 1..];
        if created[i].inUse && length < FILE_MAX_SIZE {
          var line := Line(created[i]);
          Print(length, line);
          length := length + |line|;
        }
      }
      fileDataLength := if length < FILE_MAX_SIZE then length else FILE_MAX_SIZE;
    }

    // ---- Restoring ----

    /** Parses the file into the staging array; on rejection the entries read so far stay
        written there, and the count does not change. From a value on that this model has no
        number for, `other` says what the device reads. */
    method ParseConfigurationImage(other: Outcome) returns (ok: bool)
      requires Valid()
      modifies this`restoredCount, restored
      ensures Valid()
      ensures var outcome := Settle(Parse(fileData[..fileDataLength]), other);
              && ok == outcome.Accepted?
              && restored[..] == outcome.entries + old(restored[..])[|outcome.entries|..]
              && restoredCount == if ok then |outcome.entries| else old(restoredCount)
    {
      hide ParseLines, ParseLine, Header, StartsWithName, Drop;
      var image := fileData[..fileDataLength];
      if |image| < 22 || image[..22] != Header() { return false; }
      var parsedCount: nat, lineStart: nat := 0, 22;
      ghost var was := restored[..];
      assert restored[..0] == [];
      HeaderSkipped(image);
      while lineStart < |image|
        modifies this`restoredCount, restored
        invariant restoredCount == old(restoredCount)
        invariant parsedCount <= MAX_CREATED
        invariant ParseLines(Drop(image, lineStart), restored[..parsedCount]) == Parse(image)
        invariant restored[parsedCount..] == was[parsedCount..]
        decreases |image| - lineStart
      {
        var lineEnd := FindNewline(image, lineStart);
        var line := image[lineStart..lineEnd];
        ParseStep(image, lineStart, lineEnd, restored[..parsedCount]);
        lineStart := lineEnd + 1;
        if line != [] {
          if !StartsWithName(line) || parsedCount >= MAX_CREATED {
            JoinedAt(restored[..], was, parsedCount);
            return false;
          }
          var parsed := ParseLine(line);
          if parsed.Bad? {
            JoinedAt(restored[..], was, parsedCount);
            return false;
          }
          if parsed.Unknown? {
            ok := StageOther(parsedCount, other, was);
            return;
          }
          ghost var before := restored[..];
          restored[parsedCount] := parsed.entry;
          StagedOneMore(before, was, parsedCount, parsed.entry);
          parsedCount := parsedCount + 1;
        }
      }
      JoinedAt(restored[..], was, parsedCount);
      ParseEnd(image, lineStart, restored[..parsedCount]);
      restoredCount := parsedCount;
      return true;
    }

    /** Stages what the device reads behind the entries already staged, as far as there is room. */
    method StageOther(parsedCount: nat, other: Outcome, ghost was: seq<Entry>) returns (ok: bool)
      requires Valid() && parsedCount <= MAX_CREATED && |was| == MAX_CREATED
      requires restored[parsedCount..] == was[parsedCount..]
      modifies this`restoredCount, restored
      ensures Valid()
      ensures var outcome := Settle(Foreign(old(restored[..parsedCount])), other);
              && ok == outcome.Accepted?
              && restored[..] == outcome.entries + was[|outcome.entries|..]
              && restoredCount == if ok then |outcome.entries| else old(restoredCount)
    {
      var room := MAX_CREATED - parsedCount;
      var more := if |other.entries| <= room then other.entries else other.entries[..room];
      StageMore(parsedCount, more);
      assert restored[parsedCount + |more|..] == was[parsedCount + |more|..] by {
        assert was[parsedCount + |more|..] == was[parsedCount..][|more|..];
      }
      JoinedAt(restored[..], was, parsedCount + |more|);
      ok := other.Accepted?;
      if ok { restoredCount := parsedCount + |more|; }
    }

    method StageMore(at: nat, more: seq<Entry>)
      requires Valid() && at + |more| <= MAX_CREATED
      modifies restored
      ensures restored[..at + |more|] == old(restored[..at]) + more
      ensures restored[at + |more|..] == old(restored[at..])[|more|..]
    {
      for k := 0 to |more|
        invariant forall i :: 0 <= i < at ==> restored[i] == old(restored[i])
        invariant forall i :: 0 <= i < k ==> restored[at + i] == more[i]
        invariant forall i :: at + k <= i < MAX_CREATED ==> restored[i] == old(restored[i])
      {
        restored[at + k] := more[k];
      }
    }

    /** Deletes what the image does not have; the stack's answer is not looked at. */
    method PurgeUnnamed(refused: set<Unsigned32>)
      requires Valid()
      modifies this`stack, created
      ensures Valid()
      ensures created[..] == Purge(old(created[..]), restored[..restoredCount])
      ensures stack == old(stack) - (Removed(old(created[..]), restored[..restoredCount]) - refused)
    {
      ghost var t := created[..];
      ghost var entries := restored[..restoredCount];
      for i := 0 to MAX_CREATED
        modifies this`stack, created
        invariant forall k :: 0 <= k < i ==> created[k] == Purge(t, entries)[k]
        invariant forall k :: i <= k < MAX_CREATED ==> created[k] == t[k]
        invariant stack == old(stack) - (RemovedBefore(t, entries, i) - refused)
      {
        RemovedNext(t, entries, i);
        if created[i].inUse {
          var inImage := NamedInImage(created[i].instance);
          if !inImage {
            RemoveObject(created[i].instance, refused);
            created[i] := created[i].(inUse := false);
          }
        }
      }
    }

    /** The stack's RemoveObject. */
    method RemoveObject(instance: Unsigned32, refused: set<Unsigned32>)
      modifies this`stack
      ensures stack == if instance in refused then old(stack) else old(stack) - {instance}
    {
      if instance !in refused {
        stack := stack - {instance};
      }
    }

    method NamedInImage(instance: Unsigned32) returns (inImage: bool)
      requires Valid()
      ensures inImage == Named(restored[..restoredCount], instance)
    {
      inImage := false;
      for k := 0 to restoredCount
        invariant inImage == Named(restored[..k], instance)
      {
        assert restored[..k + 1] == restored[..k] + [restored[k]];
        NamedNext(restored[..k], restored[k], instance);
        inImage := inImage || restored[k].instance == instance;
      }
    }

    /** Recreates what is missing and puts every value back; `accepted[k]` is the stack's
        answer if it is asked to add entry `k`. */
    method PlaceEntries(accepted: seq<bool>)
      requires Valid() && |accepted| == restoredCount
      modifies this`stack, created
      ensures Valid()
      ensures created[..] == PlaceAll(old(created[..]), restored[..restoredCount], accepted)
      ensures stack == AddedTo(old(stack), old(created[..]), restored[..restoredCount], accepted)
    {
      hide Find, Free;
      ghost var entries := restored[..restoredCount];
      for k := 0 to restoredCount
        modifies this`stack, created
        invariant PlaceAll(created[..], entries[k..], accepted[k..]) == PlaceAll(old(created[..]), entries, accepted)
        invariant AddedTo(stack, created[..], entries[k..], accepted[k..])
               == AddedTo(old(stack), old(created[..]), entries, accepted)
      {
        assert entries[k..][1..] == entries[k + 1..] && accepted[k..][1..] == accepted[k + 1..];
        assert entries[k..][0] == restored[k] && accepted[k..][0] == accepted[k];
        PlaceEntry(restored[k], accepted[k]);
      }
    }

    method PlaceEntry(entry: Entry, accepted: bool)
      requires Valid()
      modifies this`stack, created
      ensures Valid()
      ensures created[..] == Place(old(created[..]), entry, accepted)
      ensures var added := Find(old(created[..]), entry.instance).None? && Free(old(created[..])).Some? && accepted;
              stack == if added then old(stack) + {entry.instance} else old(stack)
    {
      hide Find, Free;
      var slot := FindCreated(entry.instance);
      if slot.None? {
        slot := FindFree();
        if slot.None? { return; }
        if !accepted { return; }
        stack := stack + {entry.instance};
        created[slot.value] := Slot(true, entry.instance, entry.value);
      } else {
        created[slot.value] := created[slot.value].(value := entry.value);
      }
    }

    // ---- The lifecycle callbacks and the main loop ----

    method OnPrepareBackup()
      requires Valid()
      modifies this, fileData
      ensures Valid() && State() == Step(old(State()), PrepareBackup)
    {
      hide Build;
      BuildConfigurationImage();
    }

    /** Starts from an empty file. */
    method OnPrepareRestore()
      requires Valid()
      modifies this
      ensures Valid() && State() == Step(old(State()), PrepareRestore)
    {
      fileDataLength := 0;
    }

    method OnCompleteRestore(aborted: bool, other: Outcome) returns (ok: bool)
      requires Valid()
      modifies this, restored
      ensures Valid() && State() == Step(old(State()), CompleteRestore(aborted, other))
      ensures ok == (aborted || Settle(Parse(Content(old(State().file))), other).Accepted?)
    {
      hide Parse, Settle;
      if aborted { return true; }
      ok := ParseConfigurationImage(other);
      if ok { restorePending := true; }
    }

    /** One pass of the main loop: applies a pending restore. */
    method Pass(accepted: seq<bool>, refused: set<Unsigned32>)
      requires Valid()
      modifies this, created
      ensures Valid() && State() == Step(old(State()), LoopPass(accepted, refused))
    {
      hide Purge, Removed, PlaceAll, AddedTo;
      if restorePending {
        restorePending := false;
        PurgeUnnamed(refused);
        PlaceEntries(Answers(accepted, restoredCount));
      }
    }
  }

  lemma {:induction false} FindIs(t: Table, instance: Unsigned32, i: nat)
    requires i < |t| && Holds(t[i], instance) && forall k :: 0 <= k < i ==> !Holds(t[k], instance)
    ensures Find(t, instance) == Some(i)
    decreases i
  {
    if i > 0 {
      assert t[1..][i - 1] == t[i] && forall k :: 0 <= k < i - 1 ==> t[1..][k] == t[k + 1];
      FindIs(t[1..], instance, i - 1);
    }
  }

  lemma {:induction false} FreeIs(t: Table, i: nat)
    requires i < |t| && !t[i].inUse && forall k :: 0 <= k < i ==> t[k].inUse
    ensures Free(t) == Some(i)
    decreases i
  {
    if i > 0 {
      assert t[1..][i - 1] == t[i] && forall k :: 0 <= k < i - 1 ==> t[1..][k] == t[k + 1];
      FreeIs(t[1..], i - 1);
    }
  }

  lemma SpliceOneMore(s: Bytes, at: nat, data: Bytes, i: nat)
    requires at + |data| <= |s| && i < |data|
    ensures Splice(s, at, data[..i + 1]) == Splice(s, at, data[..i])[at + i := data[i]]
  {
  }

  method FindNewline(image: Bytes, start: nat) returns (end: nat)
    requires start <= |image|
    ensures start <= end <= |image| && end == start + LineEnd(Drop(image, start))
  {
    end := start;
    while end < |image| && image[end] != NEWLINE
      invariant start <= end <= |image|
      invariant LineEnd(Drop(image, start)) == end - start + LineEnd(Drop(image, end))
    {
      assert Drop(image, end)[1..] == Drop(image, end + 1);
      end := end + 1;
    }
  }

  lemma LineAt(image: Bytes, start: nat, end: nat)
    requires start <= end <= |image| && end == start + LineEnd(Drop(image, start))
    ensures Drop(image, start)[..LineEnd(Drop(image, start))] == image[start..end]
    ensures Drop(Drop(image, start), LineEnd(Drop(image, start)) + 1) == Drop(image, end + 1)
  {
    DropDrop(image, start, end - start + 1);
  }

  lemma HeaderSkipped(image: Bytes)
    requires |image| >= 22
    ensures Drop(image, 22) == image[22..]
  {
  }

  /** One line of the parse, from where it starts in the image. */
  lemma {:induction false} ParseStep(image: Bytes, start: nat, end: nat, entries: seq<Entry>)
    requires start < |image| && start <= end <= |image| && end == start + LineEnd(Drop(image, start))
    requires |entries| <= MAX_CREATED
    ensures var line := image[start..end];
            var whole := ParseLines(Drop(image, start), entries);
            if line == [] then whole == ParseLines(Drop(image, end + 1), entries)
            else if !StartsWithName(line) || |entries| >= MAX_CREATED || ParseLine(line).Bad?
            then whole == Rejected(entries)
            else if ParseLine(line).Unknown? then whole == Foreign(entries)
            else whole == ParseLines(Drop(image, end + 1), entries + [ParseLine(line).entry])
  {
    hide ParseLine, StartsWithName;
    LineAt(image, start, end);
  }

  lemma ParseEnd(image: Bytes, start: nat, entries: seq<Entry>)
    requires start >= |image| && |entries| <= MAX_CREATED
    ensures ParseLines(Drop(image, start), entries) == Accepted(entries)
  {
  }

  lemma JoinedAt(now: seq<Entry>, was: seq<Entry>, n: nat)
    requires |now| == |was| && n <= |was| && now[n..] == was[n..]
    ensures now == now[..n] + was[n..]
  {
  }

  lemma StagedOneMore(before: seq<Entry>, was: seq<Entry>, n: nat, entry: Entry)
    requires |before| == |was| && n < |was| && before[n..] == was[n..]
    ensures before[n := entry][..n + 1] == before[..n] + [entry]
    ensures before[n := entry][n + 1..] == was[n + 1..]
  {
    assert before[n + 1..] == before[n..][1..] && was[n + 1..] == was[n..][1..];
  }

  function RemovedBefore(t: Table, entries: seq<Entry>, i: nat): set<Unsigned32>
    requires i <= |t|
  {
    set k | 0 <= k < i && t[k].inUse && !Named(entries, t[k].instance) :: t[k].instance
  }

  lemma RemovedNext(t: Table, entries: seq<Entry>, i: nat)
    requires i < |t|
    ensures RemovedBefore(t, entries, i + 1) ==
            RemovedBefore(t, entries, i) + if t[i].inUse && !Named(entries, t[i].instance) then {t[i].instance} else {}
    ensures RemovedBefore(t, entries, |t|) == Removed(t, entries)
  {
  }

  lemma NamedNext(entries: seq<Entry>, entry: Entry, instance: Unsigned32)
    ensures Named(entries + [entry], instance) <==> Named(entries, instance) || entry.instance == instance
  {
    var all := entries + [entry];
    if Named(entries, instance) {
      var i :| 0 <= i < |entries| && entries[i].instance == instance;
      assert all[i].instance == instance;
    }
    if entry.instance == instance {
      assert all[|entries|].instance == instance;
    }
  }
}
