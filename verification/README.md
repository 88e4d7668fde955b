# B-AEC elevator controller: a Dafny model

The repository is a BACnet example device (an Advanced Elevator Controller, profile B-AEC) together
with a wire-level client and server that exchange octets with it. This project models the three
parts of it that carry state or structure, and proves what holds of them over every input and every
run. The CAS BACnet Stack that sits between the wire and the device is not part of the repository;
it appears here as an environment that calls the callbacks in any order and answers as it likes.

* **The elevator** (`Lift`, `LiftController`, `LiftSafety`, `LiftLedger`, `LiftTiming`). The car is
  a timed machine over a queue of at most eight landing calls. `Lift` gives its steps as functions;
  `LiftController` holds the classes and the array the callbacks update in place, each method proved
  equal to its step. The position is an octet that would wrap, and nothing in the code checks it: that it
  stays in 1..10 follows from the oldest call being strictly ahead of a moving car, which is the
  invariant proved here. The other modules are watchers that see only the car from outside: one counts
  ticks, one keeps an account of calls, one keeps a stopwatch.
* **Backup, restore and created objects** (`Decimal`, `Floats`, `AnalogValues`, `Image`, `FileBuffer`,
  `Restore`, `RestoreTheorems`, `DeviceStore`). An eight-slot table implements a map; a text image is
  printed from it (`%u`, `%.6g`), carried in chunks by the file services, parsed back (`strtoul`,
  `strtod`) and applied by the main loop. `Restore` is the device as a state machine, `DeviceStore` the
  arrays updated in place, and `RestoreTheorems` the end-to-end results.
* **The wire codec** (`Octets`, `Tags`, `PropertyServices`, `PropertyMultiple`,
  `AccessSpecifications`, `LandingCalls`, `EventNotifications`, `Frames`, `FrameLog`,
  `FrameDecoder`, `Exchange`, `KnownMessages`). Encoders and parsers of the client and server, and the device's own decoder, which
  was written separately. Decoding functions work on the octets still ahead; the methods move a position
  as the source does and are proved equal to them. `Balanced` says that octets are a run of complete
  tags whose openings and closings match; it looks at tags only, never at contents, and every round
  trip of a constructed value holds exactly for balanced values.
* **Two smaller machines.** The sixteen-slot priority array of clause 19.2, on the device (`Priority`)
  and in the simulated server (`PeerServer`), and the receive poll over bound sockets (`Poll`).

Clauses are those of ANSI/ASHRAE 135. A decoder's `Result` separates running off the end of the
octets (`Truncated`, which most parsers catch) from a raised `ValueError`.

Where the code does less than a reader would expect, the model follows the code and the lemma says
exactly when the expectation holds:

* Backup then restore is the identity exactly when each value is the 32-bit float of some decimal of at
  most six digits (`RestoreTheorems.BackupThenRestore`). A Present_Value stands for its exact decimal
  expansion; `%.6g` rounds that to six digits, and reading converts the text to the nearest double and
  that to the nearest float (`Floats.Single`). So 0.1f comes back and 1234567 does not
  (`SevenDigitsAreLost`); what has been restored once always comes back (`RestoredComesBack`).
* WriteFile tests its size on a sum of 32 bits. For a negative position other than -1 whose data reaches
  back to the start of the file, the test passes although the copy falls outside the buffer; this is
  exactly when it does (`FileBuffer.WriteOutside`, `TwoOctetsOutside`). Runs of the device hold no such
  write, so nothing is said of a device after one.
* RemoveObject's result is ignored. When it fails, the device refuses to delete that object later, and
  only then do table and stack disagree (`Restore.NeverDisagrees`, `RefusalIsReachable`).
* The comment above `ParseConfigurationImage` says that a rejected image stages nothing. The entries
  before the bad line are in fact written to the staging array. That is invisible when no restore is
  pending (`RejectedRestoreIsHarmless`); when one is, the next pass applies a mixture
  (`RejectedWhilePendingMixes`, `RejectedIsHarmlessExactly`, `RejectedWhilePendingHarms`).
* A string of 254 or 255 octets is written with a length octet that reads as the mark of a longer
  length (`Tags.ReadString`).
* A network message type of 0x80 or more is followed by a vendor id that the encoder does not write and
  the client's decoder skips (`Frames.FrameRoundTrip`).
* For segmented APDUs the client takes the sequence number for the service, and on answers cut short
  it raises where the device shows nothing (`FrameLog.HeadersAgree`).
* `IsStackChosenBroadcast` and the frame decoder differ exactly on network messages missing an address
  length octet (`FrameLog.StackChosenIsShown`, `CutNetworkMessageDiffers`).
* The simulated server stores a value before it indexes the priority array, so a priority above 16
  leaves the two out of step (`PeerServer.WriteKeepsConsistent`, `WritePastLastSlotFails`).
* The wait of a landing call has no bound under arbitrary arrivals (`LiftSafety.NoBoundUnderArrivals`);
  it has one without them (`EveryCallIsAnswered`), it always has one in floors travelled
  (`OldestIsServedFirst`), and the ticks that change the car are bounded by the calls taken on
  (`WorkIsSpent`, `RestIsReached`).

## Model

| member | source | states |
|---|---|---|
| LiftSafety.ReachableSafe | main.cpp:505-610 | After any run of landing calls, ticks at any times and cold starts: position in 1..10, at most 8 distinct waiting calls for served floors, a moving car has its door closed and its oldest call strictly ahead in its direction, an open door means STOPPED. |
| LiftSafety.RunSafe | main.cpp:566-610 | The same from any safe state, not only power-on. |
| LiftSafety.StepSafe | main.cpp:538-610 | Each single event keeps that invariant; the wrap of the 8-bit position is never reached. |
| LiftSafety.StopsExactly | main.cpp:566-610 | A moving car stops at the floor it comes to exactly when a call, the oldest or another, waits there; an idle car opens its door exactly when one waits where it stands; a stop answers every call for the floor and no other, and nothing else opens the door. |
| LiftSafety.AnsweredOnArrival | main.cpp:566-610 | Over every run, a waiting call, the oldest or not, is answered on the first step that brings the car to its floor. |
| LiftSafety.PressOutcome | main.cpp:1507-1525 | A write is accepted exactly when it names a button that is lit or there are fewer than eight calls; it lights the button, last in the queue; a lit button pressed again is accepted and changes nothing, however many calls wait. |
| LiftSafety.ButtonsExactly | main.cpp:1487-1506 | The buttons: floors 1 to 10, up and down, or another floor as destination. |
| LiftSafety.TickMakesProgress | main.cpp:566-610 | A tick that changes the car lowers a measure over call count, phase and distance to the oldest call; a tick at or past the deadline changes every car that is not at rest; the measure is zero exactly at rest. |
| LiftSafety.WorkIsSpent | main.cpp:538-610 | Over any run of ticks and landing calls, the ticks that change the car plus the measure left never exceed the measure at the start plus eleven for each call taken on. |
| LiftSafety.RestIsReached | main.cpp:538-610 | Whatever calls arrive: a run with eleven ticks in time for each call that waited at its start or was taken on in it, and one more, has passed through a moment with no call waiting. |
| LiftSafety.EveryCallIsAnswered | main.cpp:538-610 | From any reachable state, with no new calls: at most 11 ticks per waiting call plus one change the car, and after that many ticks, none before the deadline then in force, the car is Idle and every call is answered. |
| LiftSafety.OldestStep | main.cpp:538-610 | One step, with arrivals allowed, either keeps the oldest call oldest with every floor moved a floor closer, or answers it by a door opening at its floor. |
| LiftSafety.OldestIsServedFirst | main.cpp:538-610 | Over any run with arbitrary arrivals, the oldest call stays oldest and floors left plus floors moved is constant, until the door opens at its floor after exactly as many moves as it was floors away. |
| LiftSafety.HoldOnce | main.cpp:566-610 | For every car with its door open, a call accepted at that floor makes the door close and open again, with the car and the calls for other floors as before. |
| LiftSafety.NoBoundUnderArrivals | main.cpp:538-610 | From every car with its door open and room for a call at that floor: for every n there is a run of 3n events over n door dwells, every tick in time, after which every other call still waits and the car has not moved. |
| LiftSafety.HeldIsReachable | main.cpp:538-610 | Such cars, with a call waiting elsewhere, are reached from power-on. |
| LiftLedger.StepBalanced | main.cpp:538-563 | One event keeps the account: waiting order is the order of the writes, each answer is once and by an open door at the call's own floor, and exactly the call an accepted write asked for is added. |
| LiftLedger.EveryCallAccountedFor | main.cpp:538-610 | Over any run of writes and ticks the account stays balanced and follows the car of the run, the calls it lists are exactly those the accepted writes asked for, in order, and no earlier answer changes. |
| LiftLedger.CallsAreConserved | main.cpp:1508-1525 | From power-on, in every run up to a cold start: the calls read off the accepted writes (a button already lit adds none) are the calls answered plus the calls waiting, each answered once and at its own floor. |
| LiftLedger.WaitingOrAnswered | main.cpp:538-554 | Every accepted call is waiting or answered, and not both. |
| LiftTiming.StepOnTime | main.cpp:566-610 | One event keeps: deadline = departure + 2000 ms for each floor begun, position = origin plus or minus floors travelled, every finished opening at least 3000 ms. |
| LiftTiming.NoDrift | main.cpp:566-610 | Over any run on a clock that does not go back, however late the ticks, a leg never has more floors than whole travel times have passed. |
| LiftTiming.TimesFromPowerOn | main.cpp:566-610 | From power-on: after k floors of a leg that left at t0 the deadline is exactly t0 + 2000(k+1), floors travelled are at most (now - t0)/2000, and openings last at least 3000 ms. |
| Lift.RequestedCall | main.cpp:1475-1506 | A write asks for a call at its floor, in the direction of its button or towards its destination; for none exactly when it names no button of the building. |
| Lift.WaitingMembers | main.cpp:538-554 | A stop keeps exactly the calls for other floors. |
| LiftSafety.WaitingKeepsOrder | main.cpp:538-554 | The compaction keeps order and distinctness, keeps the oldest call first unless it is answered, and answers at least one call when there is one here. |
| LiftController.Compact | main.cpp:538-554 | The in-place compaction loop leaves in the array exactly the calls not for this floor, in order. |
| LiftController.LiftCar.constructor | main.cpp:505-513 | A new car is at floor 3, stopped, closed, idle and without calls. |
| LiftController.LiftCar.Reset | main.cpp:2925-2945 | A cold start puts a used car back to that state. |
| LiftController.LiftCar.OpenDoor | main.cpp:538-554 | The whole new state of the car when its door opens. |
| LiftController.LiftCar.HasCallAt | main.cpp:556-563 | True exactly when some waiting call is for the floor. |
| LiftController.LiftCar.Tick | main.cpp:566-610 | The in-place update is the step of the machine about which the run theorems are proved. |
| LiftController.ElevatorGroup.SetLandingCallControl | main.cpp:1475-1534 | Accepted exactly when the write names a landing button and the call is already waiting or there is room; an accepted new call goes to the end; a refused write changes nothing. |
| LiftController.ElevatorGroup.ColdStart | main.cpp:2925-2945 | The car and the last control are those of power-on. |
| LiftController.ElevatorGroup.LandingCallAt | main.cpp:1390-1398 | Paging gives element i of the waiting calls, oldest first, and says whether more follow; nothing past the end. |
| LiftController.ElevatorGroup.LandingCallControl | main.cpp:1374-1389 | A read of Landing_Call_Control gives the last write accepted, or a value that is no call. |
| RestoreTheorems.BackupThenRestore | main.cpp:2002-2232 | Build the image, read it in any sizes, let any run of the device follow, write the octets back in any chunks with objects created, deleted and written in between, complete and apply: the table holds exactly the objects of the backup, each with the float nearest to the six digits of its value; that is the configuration of the backup if and only if each value is the float of some decimal of at most six digits; the stack has the same objects unless it refused a removal. |
| RestoreTheorems.RestoredComesBack | main.cpp:2091-2147 | Printing and reading a configuration twice is printing and reading it once. |
| RestoreTheorems.SevenDigitsAreLost | main.cpp:2097-2100 | 1234567 is not the float of any decimal of at most six digits. |
| RestoreTheorems.BackupLosesDigits | main.cpp:2002-2232 | So no backup of a device that holds it restores that device. |
| Floats.PrintedComesBack | main.cpp:2134-2143 | A value printed with six digits and read again is itself if and only if it is the float of some decimal of at most six digits. |
| Floats.SixDigitsSurvive | main.cpp:2134-2143 | Every decimal of at most six digits comes back from its float: 24 bits hold six digits, since 10^6 is below 2^23. |
| Floats.SingleWithin | main.cpp:2134-2143 | Text read as a double and cast to a float is within one part in 2^23 of the decimal. |
| Floats.NearestWithin | main.cpp:2134-2143 | Rounding any positive rational to a binary significand, halves to even, is off by at most half a unit of its last bit. |
| RestoreTheorems.UnrestorableIsRefused | main.cpp:2108-2147 | The other half: a table with an instance above 4194302 is backed up, its restore is refused, and with none pending the objects stay as they were. |
| RestoreTheorems.RestoreOfImage | main.cpp:2108-2232 | Restoring the image of any table, on any device, leaves exactly that table's objects with their values reread, and adds no stray to the stack when it refuses no removal. |
| RestoreTheorems.ApplyExact | main.cpp:2151-2189 | When the stack accepts every object, applying makes the table exactly the map the entries name, whatever it held before. |
| RestoreTheorems.LastEntryWins | main.cpp:2169-2189 | For a repeated instance the last line decides. |
| RestoreTheorems.RoomForName | main.cpp:2151-2177 | A free slot exists for every missing entry, because what the image does not name is removed first and it names at most eight. |
| RestoreTheorems.WriteAllAppends | main.cpp:2024-2043 | However the client cuts the octets, and whatever happens to objects between chunks, the file ends up holding all of them in order. |
| RestoreTheorems.RejectedRestoreIsHarmless | main.cpp:2217-2232 | With no restore pending, a restore that is aborted or whose image is rejected for what it spells in decimal makes no difference to table or stack after any later run. |
| RestoreTheorems.RejectedWhilePendingMixes | main.cpp:2108-2147 | With one pending, the next pass applies the entries read before the bad line over the front of the accepted ones. |
| RestoreTheorems.RejectedIsHarmlessExactly | main.cpp:2108-2147 | The next pass gives the same objects with and without the rejected restore if and only if none is pending or that mixture names the map that was staged. |
| RestoreTheorems.RejectedWhilePendingHarms | main.cpp:2141-2146 | Any device about to restore Analog Value 100 creates 200 in its place once a second, rejected restore has come before the main loop. |
| RestoreTheorems.HarmIsReachable | main.cpp:2207-2232 | Any device gets into that state when a second restore is completed before the main loop has applied the first. |
| Restore.StepWellKept | main.cpp:2246-2305 | Every callback, roll-back and pass, with AddObject and RemoveObject free to fail, keeps in-use instances distinct and all among the stack's Analog Values; what the stack has beyond them changes exactly by the removals it refuses and the objects added again. |
| Restore.RunWellKept | main.cpp:2151-2305 | So in every run in-use instances are distinct and the stack has each of them. |
| Restore.RefusalsAreStrays | main.cpp:2151-2168 | Over every run, the Analog Values that the stack has and the table does not are exactly the refused removals not added again since. |
| Restore.RunInStep | main.cpp:2151-2305 | Over every run the stack's set is the table's instances plus the refused removals; without a refused removal the two are equal. |
| Restore.RefusalIsReachable | main.cpp:2285-2301 | A removal that the stack refuses leaves an object whose DeleteObject the device then refuses. |
| RestoreTheorems.RefusalFromPowerOn | main.cpp:2151-2301 | It is reached from power-on: create an object, restore an image without it, and let the stack refuse. |
| Restore.NeverDisagrees | main.cpp:2258-2299 | In every run the refusal of CreateObject for an object already tracked is unreachable, that of DeleteObject for one not tracked is reached exactly for refused removals, and a creation is otherwise refused exactly when no slot is free. |
| Restore.CreateInStep | main.cpp:2246-2276 | A creation adds exactly the one object, with value zero. |
| Restore.DeleteInStep | main.cpp:2285-2305 | A deletion of an object the stack has succeeds and removes exactly that one. |
| Restore.SetValueInStep | main.cpp:1656-1667 | A Present_Value write succeeds exactly for objects that exist and changes only that value. |
| Restore.PurgeInStep | main.cpp:2151-2168 | After the first loop only objects the image names are left, and the stack was told of each removal. |
| Restore.PlaceInStep | main.cpp:2169-2189 | Placing an entry sets exactly that object; without a slot or the stack's consent a missing one stays missing on both sides. |
| Restore.ObjectEvents | main.cpp:2246-2305 | What each creation, roll-back, deletion and write does to the objects of table and stack, exactly. |
| Restore.FileEvents | main.cpp:2024-2062 | File events change the file as the file laws say and nothing else. |
| Restore.AppliedOnce | main.cpp:2896-2902 | A pending restore is applied once, and a pass without one does nothing. |
| Image.ImageReads | main.cpp:2108-2147 | Parsing the image of a table with values in the range of a float gives back its entries in order, values reread, if every instance is at most 4194302, and is a rejection otherwise. |
| Image.ParseOneLine | main.cpp:2117-2144 | Line by line, with or without a newline at the end: a good line adds its entry while there are fewer than eight, and anything else ends the parse. |
| Image.EmptyLine | main.cpp:2123-2125 | Empty lines are passed over. |
| Image.ParseNeedsHeader | main.cpp:2108-2114 | Nothing is accepted without the header line. |
| Image.ExampleImage | main.cpp:2070-2072 | The source's own example: Analog Value 100 at 42.5. |
| Image.LineReads | main.cpp:2126-2143 | A printed line reads back as its instance and the float nearest to its six digits exactly when the instance is at most 4194302. |
| Image.LineMeans | main.cpp:2126-2143 | Every spelling of the two numbers: with something behind them the line is refused; without, it is good exactly when the instance is at most 4194302, with the float nearest to the decimal; a NUL ends the line. |
| Image.LineWithoutValue | main.cpp:2126-2143 | A line without a value is refused. |
| Image.LineWithoutInstance | main.cpp:2126-2143 | So is one without an instance. |
| Image.LineUnknown | main.cpp:2126-2143 | A line whose value is an infinity, a NaN or hexadecimal is neither good nor refused here. |
| Image.OtherSpelling | main.cpp:2135 | These spellings, in either case, behind any spaces and sign. |
| Image.LineSpelled | main.cpp:2097-2100 | Every line written is the object type, the instance in decimal and the value in the layout C prescribes. |
| Image.Parse | main.cpp:2108-2147 | On any octets the parse ends and never reads more than eight entries; an infinity, a NaN, a hexadecimal number or a decimal no normal float is near gives an outcome of its own, neither accepted nor rejected. |
| Image.ImageLength | main.cpp:2091-2104 | With values in the range of a float the image is at most 318 octets, so no line is cut. |
| Decimal.Print6gReads | main.cpp:2097-2100 | What `%.6g` prints, `strtod` reads to its end, as the number rounded to six significant digits. |
| Decimal.RoundIsExact | main.cpp:2097-2100 | That rounding changes nothing if and only if there are at most six digits. |
| Decimal.LayoutMeans | main.cpp:2097-2100 | The digits and exponent laid out in fixed or exponent style name the number they came from. |
| Decimal.LayoutIsCStyle | main.cpp:2097-2100 | The printed layout is the one C prescribes for `%.6g`: fixed style exactly when the first digit weighs 10^-4 to 10^5, with the digits it has in front of the point and at least one, no zero at the end of a fraction; else one digit in front and the exponent. |
| Decimal.CStyleIsUnique | main.cpp:2097-2100 | No other layout is, so that text is the only one. |
| Decimal.ExponentSpelled | main.cpp:2097-2100 | An exponent has a sign and at least two digits. |
| Decimal.QuotientIsNearest | main.cpp:2097-2100 | Rounding is to the nearest, and to even between two. |
| Decimal.StrToULReads | main.cpp:2133 | `strtoul` on any spaces, sign and digits: the number, saturated at 64 bits, or negated modulo 2^64. |
| Decimal.StrToDReads | main.cpp:2135 | `strtod` on any spaces, sign and decimal, with or without point, fraction and exponent in either case: the number it spells, up to what does not continue it. |
| Decimal.UnsignedReads | main.cpp:2132-2134 | `%u` reads back through `strtoul` up to the next character. |
| AnalogValues.Find | main.cpp:345-352 | The first slot that holds the instance, and none only if no slot does. |
| AnalogValues.Free | main.cpp:354-361 | The first slot not in use, and none only if all are. |
| AnalogValues.ContentsUpdate | main.cpp:336-361 | Overwriting one slot removes its entry from the map and adds the new one. |
| AnalogValues.FullTable | main.cpp:354-361 | A table with no free slot holds as many distinct objects as slots. |
| FileBuffer.ReadsConcatenate | main.cpp:2002-2022 | Reads in any sizes concatenate to a prefix of the file, and to all of it once one reports the end. |
| FileBuffer.ReadsReachEnd | main.cpp:2002-2022 | Enough reads of at least one octet reach the end. |
| FileBuffer.ReadIsMaximal | main.cpp:2002-2022 | One read gives as much as it may: no more than asked and than the limit, and no less unless the file ends first, which it says. |
| FileBuffer.WriteSplices | main.cpp:2024-2043 | For every position and data: a write at or before the end, or an append, replaces exactly the octets it covers; one past the end shows the old buffer in the gap; one that does not fit in 4096 is refused, or falls outside the buffer exactly when it escapes. |
| FileBuffer.WriteOutside | main.cpp:2031-2034 | The 32-bit size test passes for a write that does not fit if and only if the position is below -1 and position plus length is from 0 to 4096, whatever the file holds. |
| FileBuffer.TwoOctetsOutside | main.cpp:2031-2034 | Two octets at position -2 are such a write. |
| FileBuffer.SizeTruncatesOrPads | main.cpp:2050-2062 | A smaller File_Size truncates, a larger one appends zeros. |
| FileBuffer.SizeRefused | main.cpp:2050-2054 | A size is refused exactly when it is above 4096. |
| FileBuffer.ShrinkThenGrow | main.cpp:2050-2062 | Shrinking then growing shows only zeros past the cut. |
| FileBuffer.ImageBuilt | main.cpp:2091-2104 | An image that fits is in the file whole. |
| FileBuffer.ImageCut | main.cpp:2091-2104 | For any table, an image that does not fit is cut after 4095 octets and ended with a NUL. |
| FileBuffer.ExampleFile | main.cpp:2070-2104 | That example is what the file holds after a backup of such a device. |
| DeviceStore.Device.constructor | main.cpp:336-343 | At power-on the table is empty and in step with the stack. |
| DeviceStore.Device.FindCreated | main.cpp:345-352 | The loop finds the first slot holding the instance. |
| DeviceStore.Device.FindFree | main.cpp:354-361 | The loop finds the first free slot. |
| DeviceStore.Device.OnCreate | main.cpp:2246-2276 | New table, or refusal with the table unchanged. |
| DeviceStore.Device.OnDelete | main.cpp:2285-2305 | New table, or refusal with the table unchanged. |
| DeviceStore.Device.OnWriteValue | main.cpp:1656-1667 | New table, or refusal with the table unchanged. |
| DeviceStore.Device.ReadFile | main.cpp:2002-2022 | The octets from the start position, bounded by count, limit and length, and whether they reach the end. |
| DeviceStore.Device.OnWriteFile | main.cpp:2024-2043 | The new buffer, length and acknowledged position; a refused write changes nothing; a write that falls outside the buffer is reported as such, where the model stops. |
| DeviceStore.Device.OnWriteFileSize | main.cpp:2050-2062 | The new buffer and length; refused above 4096 with nothing changed. |
| DeviceStore.Device.BuildConfigurationImage | main.cpp:2091-2104 | Printing line by line into the buffer, each cut to the room left, gives the buffer of the specification. |
| DeviceStore.Device.ParseConfigurationImage | main.cpp:2108-2147 | The line loop accepts exactly the images the specification accepts, stages their entries, and on rejection leaves the count while the entries read stay written; from a value without a number here on, a parameter says what is read. |
| DeviceStore.Device.PurgeUnnamed | main.cpp:2151-2168 | The nested loops take out of use exactly what the staged entries do not name, and out of the stack what it does not refuse to remove. |
| DeviceStore.Device.PlaceEntries | main.cpp:2169-2189 | The second loop puts every entry back or leaves it out as the stack answers. |
| DeviceStore.Device.OnPrepareBackup | main.cpp:2191-2199 | One step of the device machine. |
| DeviceStore.Device.OnPrepareRestore | main.cpp:2207-2216 | One step: the file is empty and nothing else changes. |
| DeviceStore.Device.OnCompleteRestore | main.cpp:2217-2232 | One step, and true exactly when aborted or the image was accepted. |
| DeviceStore.Device.Pass | main.cpp:2896-2902 | One step: a pending restore is applied once. |
| Tags.UnsignedOctets | wiretest/codec.py:291-295 | One to four octets that read back big-endian as the value, without a leading zero. |
| Tags.ObjectIdRoundTrip | wiretest/codec.py:287-288 | Type and instance packed in 32 bits unpack to themselves. |
| Tags.ReadContext | wiretest/codec.py:298-300 | A context primitive reads back with its number and contents, whatever follows. |
| Tags.ReadString | wiretest/codec.py:515-519 | A context string reads back if and only if it has at most 253 octets. |
| Tags.ReadLongString | wiretest/codec.py:690-714 | Exactly what is read in place of a longer string: its first two or four octets as a length. |
| Tags.ReadText | wiretest/codec.py:515-519 | For every text the encoder accepts: what it is taken for, and where reading goes on. |
| Tags.ReadAligned | wiretest/codec.py:690-714 | Octets after a complete tag never change how it reads, and octets past its announced end are not needed. |
| Tags.CloseIsFound | wiretest/services.py:111-129 | The walk over nested tags stops at the closing tag right after any balanced octets, whatever their contents look like. |
| Tags.FoundIsBalanced | wiretest/services.py:111-129 | In arbitrary octets, what the walk passes over is balanced. |
| Tags.ConstructedBody | wiretest/services.py:120-129 | The loop returns those octets and the position after the closing tag, or how it fails. |
| PropertyServices.WritePropertyRoundTrip | wiretest/codec.py:366-376 | For every object, property, optional index, value and optional priority, the parser recovers the request if and only if the value is balanced. |
| PropertyServices.ReadPropertyRequestRoundTrip | wiretest/codec.py:359-363 | A ReadProperty request is recovered. |
| PropertyServices.ReadPropertyAckRoundTrip | wiretest/codec.py:388-391 | The client finds the value of an ACK if and only if it is balanced. |
| PropertyServices.ReadPropertyValueAt | wiretest/codec.py:730-747 | The loop over positions returns what the specification finds, on any octets. |
| PropertyServices.ParseReferenceAt | wiretest/codec.py:750-770 | Object and property at a position, and the position after them. |
| PropertyServices.ParseWriteAt | wiretest/codec.py:891-925 | The parser over positions equals the specification, on any octets. |
| PropertyServices.ParseWritePropertyRequestAt | wiretest/codec.py:891-925 | With the checks of PDU type and service, and truncation caught. |
| PropertyServices.OnlyWritesParse | wiretest/codec.py:891-925 | Only a confirmed request for WriteProperty is parsed as one, and one that is cut is none. |
| PropertyServices.CutWriteIsNone | wiretest/codec.py:891-925 | One cut inside or before its value. |
| PropertyServices.ByPlace | wiretest/codec.py:891-925 | The parser goes by place and not by tag number for object, property and priority. |
| PropertyServices.ValueByPlace | wiretest/codec.py:907-921 | And for the value, between any tag and the closing tag that balances it. |
| PropertyServices.IndexTaken | wiretest/codec.py:903-906 | A [2] opening tag is no array index; an application Unsigned is taken for one. |
| PropertyMultiple.ReadPropertyMultipleRoundTrip | wiretest/services.py:144-177 | For results with distinct references, with or without array index, nested values and error entries included, the client recovers exactly the dictionary meant if and only if every value is balanced. |
| PropertyMultiple.EveryReferenceFound | wiretest/services.py:144-177 | From the octets of such an answer: each (property, index) is found with its own value or error, and no other reference at all. |
| PropertyMultiple.StepHead | wiretest/services.py:160-170 | The reference of an entry replaces that of the entry before it, index and all. |
| PropertyMultiple.StepIndex | wiretest/services.py:160-170 | A [3] is the array index of the property in front of it. |
| PropertyMultiple.PassedOver | wiretest/services.py:144-177 | Which tags are passed over: application tags, other context primitives, other opening and closing tags, and values before any object. |
| PropertyMultiple.ErrorCodes | wiretest/services.py:171-176 | Of an error only application values count, and the first two of them. |
| PropertyMultiple.OnlyAnswersParse | wiretest/services.py:144-155 | Only a ComplexACK of ReadPropertyMultiple is parsed as one; one too short to tell raises. |
| PropertyMultiple.CutAnswerIsNone | wiretest/services.py:144-177 | An answer cut inside a value is no answer. |
| PropertyMultiple.StepResults | wiretest/codec.py:526-541 | For any results, repeated references too, parsing from any state gives those results merged over what was there. |
| PropertyMultiple.MergeLookup | wiretest/services.py:144-177 | That dictionary answers every reference with the last entry for it. |
| PropertyMultiple.OnlyAnswer | wiretest/services.py:144-177 | With distinct references each entry is its own answer. |
| PropertyMultiple.StoresBalanced | wiretest/services.py:144-177 | On arbitrary octets only balanced values are ever stored. |
| PropertyMultiple.UnbalancedIsLost | wiretest/services.py:144-177 | One unbalanced value anywhere and the dictionary meant is not recovered. |
| PropertyMultiple.ApplicationValuesAt | wiretest/codec.py:785-793 | The loop returns the contents of each tag in order, on any octets. |
| PropertyMultiple.AnswerAt | wiretest/services.py:120-129 | One constructed value and the position after it. |
| PropertyMultiple.ParseResultsAt | wiretest/services.py:144-177 | The loop with its current object, property and index equals the specification, on any octets. |
| PropertyMultiple.ParseAckAt | wiretest/services.py:144-177 | With the checks in front of it. |
| AccessSpecifications.AccessSpecificationsRoundTrip | wiretest/codec.py:411-422 | The server recovers the property lists a request asks for. |
| AccessSpecifications.ReadPropertyMultipleRequestRoundTrip | wiretest/services.py:136-141 | From the whole request. |
| AccessSpecifications.AskedExactly | wiretest/codec.py:806-821 | Over distinct objects the dictionary has exactly the objects asked for, each with its list in order. |
| AccessSpecifications.ReadAccessSpecifications | wiretest/codec.py:806-821 | The loop equals the specification, on any octets. |
| AccessSpecifications.PassedOver | wiretest/codec.py:806-821 | Which tags are passed over, inside a list and outside. |
| AccessSpecifications.ElementsOfConcat | wiretest/codec.py:773-782 | A list of single tags splits into its elements. |
| AccessSpecifications.ConcatOfElements | wiretest/codec.py:773-782 | Whatever is split, the pieces in order are the octets that went in. |
| AccessSpecifications.ApplicationElements | wiretest/codec.py:773-782 | The loop equals the specification. |
| LandingCalls.LandingCallsRoundTrip | wiretest/services.py:468-499 | Any list of calls with texts of at most 252 octets, under any opening and closing tags, decodes to its calls in order with floor, direction or destination, and text. |
| LandingCalls.StepStatus | wiretest/services.py:468-478 | Every status the encoder accepts adds the call it spells, with the text it is taken for, and reading goes on where the text is taken to end; with at most 252 octets of text that is the call itself and what follows. |
| LandingCalls.UpToLongText | wiretest/services.py:481-499 | With a longer text somewhere in a list: everything before it is decoded as meant, and the rest from exactly where that text is taken to end. |
| LandingCalls.LastCallReads | wiretest/services.py:468-499 | The last call of a value, and so a single status, reads back if and only if its text has at most 252 octets. |
| LandingCalls.LongTextByChance | wiretest/services.py:481-499 | Before other octets a longer text can come back by chance, so the condition is exact for the last call only. |
| LandingCalls.DecodeLandingCalls | wiretest/services.py:481-499 | The loop that updates the last call in place equals the specification, on any octets. |
| LandingCalls.PassedOver | wiretest/services.py:481-499 | Application tags, unknown fields and fields before any floor are passed over. |
| Frames.FrameRoundTrip | wiretest/codec.py:220-284 | For every payload and every DNET/DADR, SNET/SADR and reply choice the client decodes the fields encoded; the payload comes back exactly unless it follows a message type of 0x80 or more. |
| Frames.ForwardedRoundTrip | wiretest/codec.py:220-231 | A Forwarded-NPDU also gives back the originating address. |
| Frames.DistributeRoundTrip | wiretest/codec.py:240-242 | So is a Distribute-Broadcast-To-Network. |
| Frames.BvllOnlyRoundTrip | wiretest/codec.py:588-594 | Every other BVLL message gives back its function and octets, and has no NPDU. |
| Frames.BvllHeader | wiretest/codec.py:220-222 | Type, function and the length of the whole datagram. |
| Frames.NpduHeader | wiretest/codec.py:262-284 | Version, no reserved control bit and no priority, and the hop count right behind the two addresses. |
| Frames.TakenExactly | wiretest/codec.py:588-602 | A datagram is taken exactly when it is BACnet/IP and carries no NPDU or one of version 1. |
| Frames.CutAddressReads | wiretest/codec.py:606-615 | An address the datagram cuts short is taken as far as it goes. |
| Frames.NpduReads | wiretest/codec.py:262-284 | The NPDU alone, into any frame. |
| Frames.Decode | wiretest/codec.py:588-624 | The decoder that sets fields as it advances equals the specification, on any octets. |
| Frames.DecodeNpdu | wiretest/codec.py:600-624 | Its NPDU part. |
| FrameLog.FrameShown | common/CASExampleHelper.cpp:1473-1639 | The device's decoder recovers the same routing fields from what the client's encoder builds, and shows of the payload what it shows of those octets alone. |
| FrameLog.ForwardedShown | common/CASExampleHelper.cpp:1484-1490 | A Forwarded-NPDU shows what the original shows: the originating address is passed over. |
| FrameLog.ForwardedAgrees | common/CASExampleHelper.cpp:1473-1639 | So every agreement between the two decoders carries over to forwarded messages. |
| FrameLog.NoNpduShown | common/CASExampleHelper.cpp:1473-1495 | Any other BVLC function, and anything not BACnet/IP, shows no NPDU. |
| FrameLog.CutDestinationShown | common/CASExampleHelper.cpp:1500-1530 | A destination that is cut shows its network number and nothing behind it. |
| FrameLog.SegmentShown | common/CASExampleHelper.cpp:1540-1600 | A segment of a request or ACK shows its reference too, two octets later. |
| FrameLog.ShownOnlyFor | common/CASExampleHelper.cpp:1540-1639 | A reference is shown for ReadProperty and WriteProperty requests and ReadProperty ACKs only. |
| FrameLog.ReadPropertyAgrees | common/CASExampleHelper.cpp:1473-1639 | Client and device read the same object, property and index from every ReadProperty request, however routed. |
| FrameLog.WritePropertyAgrees | common/CASExampleHelper.cpp:1473-1639 | And from every WriteProperty request with a balanced value. |
| FrameLog.AckAgrees | common/CASExampleHelper.cpp:1473-1639 | And the device shows the reference of every ReadProperty ACK whose value the client finds. |
| FrameLog.TagReadersAgree | common/CASExampleHelper.cpp:1313-1371 | On every octet string the two tag readers agree, except that the device rejects an application tag with 6 or 7 in its length field. |
| FrameLog.ShownIsParsed | common/CASExampleHelper.cpp:1425-1469 | On arbitrary octets the device shows an object and property if and only if the client parses them and both are complete context primitives [0] and [1] of at most four octets, and they are the same; both then agree on the array index if and only if what follows is not a cut, empty or longer [2] or no tag. |
| FrameLog.ReferenceShown | common/CASExampleHelper.cpp:1425-1469 | The device shows the reference a message was built with. |
| FrameLog.HeadersAgree | wiretest/codec.py:631-645 | On any octets after the routing fields both name the same invoke id exactly when the answer is not cut before it, and the same service exactly when the message is neither cut nor a segment whose two octets differ; where the client raises they do not agree. |
| FrameLog.SegmentsDiffer | wiretest/codec.py:631-645 | A segmented request, and its first five octets, on which the two name different services. |
| FrameLog.ShortAnswersAgree | wiretest/codec.py:394-445 | However routed, client and device both name the invoke id a SimpleACK, Error, Reject or Abort was built with and the service it answers, and the device shows the reason it was built with. |
| FrameLog.StackChosenIsShown | common/CASExampleHelper.cpp:249-281 | On arbitrary octets the routing test is true if and only if the full decode shows version 1, an original unicast or broadcast, and a network message or an unconfirmed I-Am or I-Have, with both address length octets present; they differ exactly on network messages missing one. |
| FrameLog.CutNetworkMessageDiffers | common/CASExampleHelper.cpp:249-281 | A frame on which the two differ. |
| FrameDecoder.DecodeTagHeader | common/CASExampleHelper.cpp:1313-1371 | Never indexes past the frame, and gives the header of the specification. |
| FrameDecoder.ReadUnsigned | common/CASExampleHelper.cpp:1425-1469 | The shift loop is the big-endian value. |
| FrameDecoder.DecodeObjectAndProperty | common/CASExampleHelper.cpp:1425-1469 | On any octets, within the frame, the reference of the specification. |
| FrameDecoder.DecodeApdu | common/CASExampleHelper.cpp:1473-1639 | The APDU part, within the frame. |
| FrameDecoder.DecodeNpdu | common/CASExampleHelper.cpp:1473-1639 | The routing part, within the frame. |
| FrameDecoder.DecodeBacnetFrame | common/CASExampleHelper.cpp:1473-1639 | On arbitrary octets every index is inside the frame, and the result is the decode the other theorems are about. |
| FrameDecoder.IsStackChosenBroadcast | common/CASExampleHelper.cpp:249-281 | The same for the routing test. |
| EventNotifications.NotificationRoundTrip | wiretest/alarm.py:191-252 | Every notification the encoder accepts decodes to the fields before its text and to what is read from where the text is taken to end; with a text of at most 252 octets or none, confirmed or not, alarm or acknowledgment form, that is its identifiers, states and time stamp; with a text of 254 octets not starting with NUL, notify type and states are always lost. |
| EventNotifications.ParametersParse | wiretest/alarm.py:128-162 | For every notification the encoder accepts: the fields before the text are read as given, the others from exactly where the text is taken to end. |
| EventNotifications.SkipStep | wiretest/alarm.py:169-175 | A nested field is passed over whatever balanced octets it holds. |
| EventNotifications.StampReads | wiretest/alarm.py:78-82 | A date and time are read back from inside the two levels of tags. |
| EventNotifications.PrimitiveStamp | wiretest/alarm.py:178-188 | A time or a sequence number as time stamp is passed over. |
| EventNotifications.OtherStamp | wiretest/alarm.py:178-188 | So is any other constructed one, whatever balanced octets it holds. |
| EventNotifications.EventValuesAre | wiretest/alarm.py:152-158 | The out-of-range values, octet by octet. |
| EventNotifications.ApplicationStep | wiretest/alarm.py:191-252 | Application tags and primitives that are no field set none. |
| EventNotifications.ConfirmedExactly | wiretest/alarm.py:191-252 | Which APDUs are taken as confirmed, and when the invoke id is named. |
| EventNotifications.SkipConstructed | wiretest/alarm.py:169-175 | The loop ends just after the matching closing tag, on any octets. |
| EventNotifications.ReadStampAt | wiretest/alarm.py:178-188 | The time stamp choice at a position and the position after it. |
| EventNotifications.DecodeFields | wiretest/alarm.py:191-252 | The pass that sets fields equals the specification, on any octets. |
| EventNotifications.DecodeNotification | wiretest/alarm.py:191-252 | With the confirmed and unconfirmed forms told apart. |
| Priority.PresentValueIs | main.cpp:256-274 | After any run, Present_Value is the latest command not relinquished at the lowest-numbered priority that has one, else Relinquish_Default. |
| Priority.SlotsHoldHistory | main.cpp:277-287 | Each slot holds what the history of its priority leaves standing. |
| Priority.ActsOn | main.cpp:265-287 | A command or relinquish at priority 1 to 16 acts on that slot, at any other on slot 16, and on no other. |
| Priority.LegalStates | main.cpp:1672-1734 | The states that can be written: 0 and 1, or 1 to 3. |
| Priority.CommandThenRelinquish | main.cpp:277-287 | Commanding an empty slot and relinquishing it later, among commands at other priorities, leaves no trace. |
| Priority.SlotsStayLegal | main.cpp:1672-1777 | Over every run of attempted writes, any value at any priority, and of NULLs, slots and Present_Value of a Binary or Multi-State output only ever hold its states. |
| Priority.AttemptsAreTaken | main.cpp:1672-1777 | A run of attempts leaves the slots that the accepted commands and the relinquishes alone leave, so the history theorems apply to it. |
| Priority.Commandable.CommandWrite | main.cpp:277-281 | One command in place, at 16 when the priority is out of range. |
| Priority.Commandable.CommandRelinquish | main.cpp:284-287 | One relinquish in place. |
| Priority.Commandable.ReadPrioritySlot | main.cpp:307-317 | Element i of the array, NULL when relinquished, nothing outside 1..16. |
| Priority.Commandable.WriteState | main.cpp:1672-1734 | Refused exactly for a value that is not a state, with nothing changed; legality is kept. |
| PeerServer.WriteKeepsConsistent | wiretest/peer.py:365-398 | After any write the served Present_Values agree with the priority arrays if and only if the write did not reach a slot past the last with another value. |
| PeerServer.WritePastLastSlotFails | wiretest/peer.py:391-396 | From a server as it starts and the octets of a request: another REAL at priority 17 raises, and the value served is not the one the array resolves to. |
| PeerServer.CommandIsStep | wiretest/peer.py:380-398 | An accepted command is one step of the same priority array, at 16 when none is given, and touches no other object's. |
| PeerServer.NullExactly | wiretest/codec.py:875-880 | A value is taken for NULL exactly when it starts with application tag 0, spelled out in octets. |
| PeerServer.NullRelinquishes | wiretest/peer.py:365-398 | From the octets of a request: a NULL at a priority, or at 16 without one, clears exactly that slot and serves what the others resolve to. |
| PeerServer.NullAbsorbed | wiretest/peer.py:372-378 | A NULL to a property that is listed and not commanded is acknowledged and changes nothing. |
| PeerServer.NullStored | wiretest/peer.py:365-398 | Without commandable objects a NULL is a value like any other. |
| PeerServer.NullRefused | wiretest/peer.py:379-390 | A refusing server and an unknown object absorb no NULL. |
| PeerServer.ReplyIs | wiretest/peer.py:379-398 | Which reply each other write gets, and what is then served. |
| PeerServer.DefaultSlot | wiretest/peer.py:394 | Without a priority, or with 0, a command takes slot 16. |
| PeerServer.RefusedChangesNothing | wiretest/peer.py:365-398 | A write not acknowledged changes nothing, save past the last slot. |
| PeerServer.RunKeepsConsistent | wiretest/peer.py:365-398 | Over every run of writes at any priorities, accepted, refused or absorbed: the objects out of step are exactly those whose last write to reach their array failed; so the server is consistent at the end if and only if every failing write was made good, and stays so when none fails. |
| PeerServer.WriteOutOfStep | wiretest/peer.py:365-398 | One write: a failing one puts its object out of step, any other that reaches an array puts its object in step, no other matters. |
| PeerServer.SimulatedServer.constructor | wiretest/peer.py:216-233 | Starts with the served values as defaults and empty arrays, in agreement. |
| PeerServer.SimulatedServer.Write | wiretest/peer.py:365-398 | The in-place update and the reply, in the source's order of checks. |
| PeerServer.SimulatedServer.Winning | wiretest/peer.py:365-398 | The first slot that is set, else the default. |
| Exchange.ReadMultipleExchange | wiretest/peer.py:354-363 | The whole exchange: for any request, any server dictionary and any order in which the server goes through the request, the client reads exactly the server's values restricted to what was asked, with an error for each property it lacks, if and only if every value asked for is balanced. |
| Exchange.AnswerReads | wiretest/peer.py:360-363 | The same from the parsed request on. |
| Exchange.EachReferenceAnswered | wiretest/peer.py:354-363 | Over distinct objects, each reference of the request finds the server's own value. |
| Exchange.WriteThenRead | wiretest/peer.py:354-398 | A WriteProperty the server takes and a later ReadPropertyMultiple: the client reads what it wrote, or for a commanded property what the priority array resolves to. |
| Exchange.ReadElementExchange | wiretest/peer.py:334-352 | The whole exchange for one element of an array of single tags: index 0 reads the count, index i the i-th element if and only if it is a primitive, and past the last there is no value. |
| Exchange.NoElement | wiretest/peer.py:334-349 | Past the last element the answer is Error PROPERTY, INVALID_ARRAY_INDEX; a property the server lacks is left to the rest of it. |
| Poll.NoStarvation | common/CASExampleHelper.cpp:130-163 | A bound socket that always has a datagram is served after at most n-1 datagrams from others, whatever they do. |
| Poll.EachCallBringsNearer | common/CASExampleHelper.cpp:130-163 | Each datagram from another socket lowers the cyclic distance to it. |
| Poll.IdleRotates | common/CASExampleHelper.cpp:155-163 | A call that finds nothing still moves on by one. |
| Poll.ServedGoesLast | common/CASExampleHelper.cpp:130-163 | After a datagram from a socket, that socket is asked last. |
| Poll.Receiver.Receive | common/CASExampleHelper.cpp:130-163 | One call serves the first ready socket from the next binding on, and moves on past it. |
| KnownMessages.ReadPropertyOctets | wiretest/codec.py:359-363 | The octets of one ReadProperty request. |
| KnownMessages.WritePropertyOctets | wiretest/codec.py:366-376 | The octets of one WriteProperty request with a priority. |
| KnownMessages.ReadPropertyAckOctets | wiretest/peer.py:350-352 | The octets of one answer for an array element. |
| KnownMessages.ReadMultipleOctets | wiretest/codec.py:411-422 | The octets of one access specification with an index. |
| KnownMessages.ReadMultipleAckOctets | wiretest/codec.py:526-541 | The octets of one answer with a value and an error. |
| KnownMessages.LandingCallOctets | wiretest/services.py:468-478 | The octets of two landing calls. |
| KnownMessages.FrameOctets | wiretest/codec.py:220-284 | The octets of one routed frame. |
| KnownMessages.NotificationOctets | wiretest/alarm.py:128-162 | The head of one event notification. |

## Left out

- The CAS BACnet Stack: only its calling pattern is kept (create for what it does not have, delete for what it has, roll-back, any answers to AddObject and RemoveObject).
- Device-instance and object-type dispatch, object names, start-up registration, logging, COV notification calls, floor texts in the device, modification dates: one branch settles each.
- Floats other than zero and the normal ones: infinities, NaN, subnormal numbers and hexadecimal text have no number here; an image that holds one is a parse outcome of its own (Image.Parse), after which a parameter says what the device reads. Locales are not modelled.
- Cold start and the accounts: the call account and the stopwatch run from one cold start to the next, since a cold start discards calls and may cut a dwell short; the safety theorems include cold starts. A cold start leaves created objects, the file and a pending restore alone, so the device machine has no such event.
- DeviceStore.Device.OnWriteFile: what memory holds after a copy outside the buffer is not described. Chunks are shorter than 2^31 octets.
- RestoreTheorems.BackupThenRestore: the client writes nothing else to the file between its chunks, and the stack accepts every object on the pass that applies them.
- RestoreTheorems.RejectedIsHarmlessExactly: compares the objects after the next pass on which the stack accepts every object; for any later run and any answers, harmlessness is proved with no restore pending.
- PropertyMultiple.ReadPropertyMultipleRoundTrip: states distinct references; repeated ones are covered by StepResults and MergeLookup. Dictionaries are maps without an order; the Exchange theorems hold for any order.
- Texts are octets, without UTF-8 decoding. For a text of 253 octets, or of 254 starting with NUL, what a notification decodes to depends on the octets of the text; NotificationRoundTrip says from where, without a shorter condition.
- Distribute-Broadcast-To-Network: the client's decoder reads the NPDU inside, the device's does not; both are modelled so, and the agreement theorems are about original unicasts and broadcasts.
- Bit strings beyond the four status flags, lighting commands, ReadRange, event log and COV decoders: flat, or with no encoder to round-trip against.
- PeerServer: whole-property ReadProperty answers, request lists, locks, scripted failures and the offline mode of the server; a write check is a parameter.
- Poll: receive buffer sizes, address strings and remembered peers; whether a socket would return a datagram is a parameter.
- Deferred restart, password comparison, name lookup: sound but easy.
