/** File 1: a buffer of 4096 octets of which the first `length` are the file. */
module FileBuffer {
  import opened Octets
  import opened Decimal
  import opened AnalogValues
  import opened Image

  datatype File = File(buffer: Bytes, length: nat)

  predicate Valid(f: File) {
    |f.buffer| == FILE_MAX_SIZE && f.length <= FILE_MAX_SIZE
  }

  function Content(f: File): Bytes
    requires Valid(f)
  {
    f.buffer[..f.length]
  }

  /** `memcpy(buffer + at, data, size)` */
  function Splice(s: Bytes, at: nat, data: Bytes): (r: Bytes)
    requires at + |data| <= |s|
    ensures |r| == |s|
  {
    s[..at] + data + s[at + |data|..]
  }

  // ---- AtomicReadFile ----

  function Min(a: nat, b: nat): nat {
    if a < b then a else b
  }

  /** The octets and the end-of-file flag of one read. */
  function Read(content: Bytes, start: nat, count: nat, limit: nat): (Bytes, bool) {
    if start >= |content| then ([], true)
    else
      var n := Min(Min(|content| - start, count), limit);
      (content[start..start + n], start + n >= |content|)
  }

  /** Reads that follow on from each other, with the counts the client chose. */
  function ReadAll(content: Bytes, start: nat, counts: seq<nat>, limit: nat): (Bytes, bool)
    decreases |counts|
  {
    if counts == [] then ([], false)
    else
      var (data, eof) := Read(content, start, counts[0], limit);
      if eof then (data, true)
      else
        var (rest, eof') := ReadAll(content, start + |data|, counts[1..], limit);
        (data + rest, eof')
  }

  lemma Adjoining(s: Bytes, a: nat, n: nat, m: nat)
    requires a + n + m <= |s|
    ensures s[a..a + n] + s[a + n..a + n + m] == s[a..a + n + m]
    ensures s[a + n..a + n + m] == s[a + n..] ==> a + n + m == |s|
  {
  }

  /** Reads in any sizes give a prefix of the file from `start` on, and all of it once one
      of them reports the end. */
  lemma {:induction false} ReadsConcatenate(content: Bytes, start: nat, counts: seq<nat>, limit: nat)
    requires start <= |content|
    ensures var (data, eof) := ReadAll(content, start, counts, limit);
            && start + |data| <= |content| && data == content[start..start + |data|]
            && (eof ==> data == content[start..])
    decreases |counts|
  {
    if counts != [] {
      var (data, eof) := Read(content, start, counts[0], limit);
      if !eof {
        ReadsConcatenate(content, start + |data|, counts[1..], limit);
        var (rest, _) := ReadAll(content, start + |data|, counts[1..], limit);
        Adjoining(content, start, |data|, |rest|);
      }
    }
  }

  /** Enough reads of at least one octet always reach the end. */
  lemma {:induction false} ReadsReachEnd(content: Bytes, start: nat, counts: seq<nat>, limit: nat)
    requires start <= |content| && limit > 0 && |counts| > |content| - start
    requires forall i :: 0 <= i < |counts| ==> counts[i] > 0
    ensures ReadAll(content, start, counts, limit).1
    decreases |counts|
  {
    var (data, eof) := Read(content, start, counts[0], limit);
    if !eof {
      ReadsReachEnd(content, start + |data|, counts[1..], limit);
    }
  }

  // ---- AtomicWriteFile ----

  /** A signed 32-bit position; -1 appends. */
  type FileStart = x: int | -0x8000_0000 <= x < 0x8000_0000

  /** What one request can carry. */
  type Chunk = b: Bytes | |b| < 0x8000_0000

  /** Another negative position is taken as unsigned, which is past every file. */
  function WriteAt(f: File, start: FileStart): nat {
    if start == -1 then f.length else if start >= 0 then start else start + 0x1_0000_0000
  }

  /** The end of the write as the device computes it, in unsigned 32-bit arithmetic. */
  function Sum32(f: File, start: FileStart, data: Chunk): nat {
    (WriteAt(f, start) + |data|) % 0x1_0000_0000
  }

  /** The file after the write; a refusal; or a copy that would fall outside the buffer. */
  datatype WriteOutcome = Done(file: File) | Full | Outside

  /** The size test looks at the 32-bit sum; the copy goes where the position says. */
  function Write(f: File, start: FileStart, data: Chunk): WriteOutcome
    requires Valid(f)
  {
    var end := WriteAt(f, start) + |data|;
    if Sum32(f, start, data) > FILE_MAX_SIZE then Full
    else if end > FILE_MAX_SIZE then Outside
    else Done(File(Splice(f.buffer, WriteAt(f, start), data), if end > f.length then end else f.length))
  }

  /** A negative position other than -1 that the data carries back to the start of the file. */
  predicate Escapes(start: FileStart, data: Chunk) {
    start < -1 && 0 <= start + |data| <= FILE_MAX_SIZE
  }

  /** The size test lets a write through that does not fit exactly when it escapes, whatever the
      file holds; every other write that does not fit is refused. */
  lemma WriteOutside(f: File, start: FileStart, data: Chunk)
    requires Valid(f)
    ensures Write(f, start, data).Outside? <==> Escapes(start, data)
    ensures Write(f, start, data).Full? <==> WriteAt(f, start) + |data| > FILE_MAX_SIZE && !Escapes(start, data)
  {
  }

  /** The smallest such write: two octets at position -2. */
  lemma TwoOctetsOutside(f: File, a: byte, b: byte)
    requires Valid(f)
    ensures WriteAt(f, -2) + 2 > FILE_MAX_SIZE && Sum32(f, -2, [a, b]) == 0 && Write(f, -2, [a, b]) == Outside
  {
  }

  /** A write at or before the end replaces exactly the octets it covers and keeps the rest;
      one that starts past the end shows what the buffer held in the gap; one that does not fit is
      refused or, exactly when it escapes, copied outside the buffer. */
  lemma WriteSplices(f: File, start: FileStart, data: Chunk)
    requires Valid(f)
    ensures var at := WriteAt(f, start);
            match Write(f, start, data)
            case Full => at + |data| > FILE_MAX_SIZE && !Escapes(start, data)
            case Outside => at + |data| > FILE_MAX_SIZE && Escapes(start, data)
            case Done(g) =>
              && at + |data| <= FILE_MAX_SIZE
              && Valid(g)
              && Content(g) == if at + |data| <= f.length then Splice(Content(f), at, data)
                               else if at <= f.length then Content(f)[..at] + data
                               else Content(f) + f.buffer[f.length..at] + data
  {
    hide Escapes, Sum32;
    WriteOutside(f, start, data);
    var at := WriteAt(f, start);
    if Write(f, start, data).Done? {
      var g := Write(f, start, data).file;
      if at + |data| <= f.length {
        assert Content(g) == Splice(Content(f), at, data);
      } else if at <= f.length {
        assert Content(g) == Content(f)[..at] + data;
      } else {
        assert Content(g) == Content(f) + f.buffer[f.length..at] + data;
      }
    }
  }

  /** A request that stays inside the buffer or is refused. */
  datatype WriteRequest = WriteRequest(start: FileStart, data: Chunk)

  type FileWrite = w: WriteRequest | !Escapes(w.start, w.data) witness WriteRequest(-1, [])

  // ---- File_Size ----

  function ZeroOctets(n: nat): (r: Bytes)
    ensures |r| == n
  {
    seq(n, _ => 0)
  }

  function SetSize(f: File, size: Unsigned32): Option<File>
    requires Valid(f)
  {
    if size > FILE_MAX_SIZE then None
    else if size > f.length then Some(File(Splice(f.buffer, f.length, ZeroOctets(size - f.length)), size))
    else Some(File(f.buffer, size))
  }

  /** A smaller size truncates, a larger one appends zeros. */
  lemma SizeTruncatesOrPads(f: File, size: Unsigned32)
    requires Valid(f) && size <= FILE_MAX_SIZE
    ensures var g := SetSize(f, size).value;
            && Valid(g)
            && Content(g) == if size <= f.length then Content(f)[..size] else Content(f) + ZeroOctets(size - f.length)
  {
    var g := SetSize(f, size).value;
    if size > f.length {
      assert Content(g) == Content(f) + ZeroOctets(size - f.length);
    } else {
      assert Content(g) == Content(f)[..size];
    }
  }

  /** A size is refused exactly when it is above 4096. */
  lemma SizeRefused(f: File, size: Unsigned32)
    requires Valid(f)
    ensures SetSize(f, size).None? <==> size > 4096
  {
  }

  /** Shrinking and then growing shows only zeros past the cut, whatever was there. */
  lemma ShrinkThenGrow(f: File, cut: Unsigned32, size: Unsigned32)
    requires Valid(f) && cut <= f.length && cut <= size <= FILE_MAX_SIZE
    ensures SetSize(f, cut).Some? && Valid(SetSize(f, cut).value)
    ensures SetSize(SetSize(f, cut).value, size).Some?
    ensures var g := SetSize(SetSize(f, cut).value, size).value;
            && Valid(g) && Content(g) == Content(f)[..cut] + ZeroOctets(size - cut)
            && |Content(g)| == size && forall i :: cut <= i < size ==> Content(g)[i] == 0
  {
    SizeTruncatesOrPads(f, cut);
    var g := SetSize(f, cut).value;
    SizeTruncatesOrPads(g, size);
    assert size == cut ==> Content(g)[..size] == Content(f)[..cut] + ZeroOctets(0);
  }

  // ---- Building the image in place ----

  /** `snprintf(buffer + length, FILE_MAX_SIZE - length, ...)`: the text, cut if it does not
      fit with its terminating NUL. */
  function Printed(buffer: Bytes, length: nat, text: Bytes): (r: Bytes)
    requires |buffer| == FILE_MAX_SIZE && length < FILE_MAX_SIZE
    ensures |r| == FILE_MAX_SIZE
  {
    var room := FILE_MAX_SIZE - length;
    Splice(buffer, length, (if |text| < room then text else text[..room - 1]) + [0])
  }

  function BuildLines(buffer: Bytes, length: nat, t: Table): (r: (Bytes, nat))
    requires |buffer| == FILE_MAX_SIZE
    ensures |r.0| == FILE_MAX_SIZE
    decreases |t|
  {
    if t == [] then (buffer, length)
    else if t[0].inUse && length < FILE_MAX_SIZE then
      BuildLines(Printed(buffer, length, Line(t[0])), length + |Line(t[0])|, t[1..])
    else BuildLines(buffer, length, t[1..])
  }

  function Build(f: File, t: Table): (g: File)
    requires Valid(f)
    ensures Valid(g)
  {
    var (buffer, length) := BuildLines(Printed(f.buffer, 0, Header()), 22, t);
    File(buffer, Min(length, FILE_MAX_SIZE))
  }

  lemma PrintedPrefix(buffer: Bytes, length: nat, text: Bytes)
    requires |buffer| == FILE_MAX_SIZE && length + |text| < FILE_MAX_SIZE
    ensures Printed(buffer, length, text)[..length + |text|] == buffer[..length] + text
  {
  }

  lemma {:induction false} LinesBuilt(buffer: Bytes, length: nat, t: Table)
    requires |buffer| == FILE_MAX_SIZE && length + |Lines(t)| < FILE_MAX_SIZE
    ensures var (b, n) := BuildLines(buffer, length, t);
            n == length + |Lines(t)| && b[..n] == buffer[..length] + Lines(t)
    decreases |t|
  {
    hide Line, Printed;
    if t == [] {
      assert buffer[..length] + [] == buffer[..length];
    } else if t[0].inUse {
      var line, rest := Line(t[0]), Lines(t[1..]);
      PrintedPrefix(buffer, length, line);
      LinesBuilt(Printed(buffer, length, line), length + |line|, t[1..]);
      Regroup3(buffer[..length], line, rest);
    } else {
      assert Lines(t) == Lines(t[1..]);
      LinesBuilt(buffer, length, t[1..]);
    }
  }

  /** An image that fits is in the file whole, with no line cut. */
  lemma ImageBuilt(f: File, t: Table)
    requires Valid(f) && |ImageOf(t)| < FILE_MAX_SIZE
    ensures Content(Build(f, t)) == ImageOf(t)
  {
    hide Lines, BuildLines, Printed, Header;
    PrintedPrefix(f.buffer, 0, Header());
    LinesBuilt(Printed(f.buffer, 0, Header()), 22, t);
    assert f.buffer[..0] + Header() == Header();
  }

  lemma {:induction false} NoRoomLeft(buffer: Bytes, length: nat, t: Table)
    requires |buffer| == FILE_MAX_SIZE && length >= FILE_MAX_SIZE
    ensures BuildLines(buffer, length, t) == (buffer, length)
    decreases |t|
  {
    if t != [] {
      NoRoomLeft(buffer, length, t[1..]);
    }
  }

  lemma PrintedCut(buffer: Bytes, length: nat, text: Bytes)
    requires |buffer| == FILE_MAX_SIZE && length < FILE_MAX_SIZE <= length + |text|
    ensures Printed(buffer, length, text) == (buffer[..length] + text)[..4095] + [0]
  {
    var room := FILE_MAX_SIZE - length;
    assert (buffer[..length] + text)[..4095] == buffer[..length] + text[..room - 1];
  }

  lemma CutSame(a: Bytes, b: Bytes, c: Bytes)
    requires |a + b| >= 4095
    ensures (a + (b + c))[..4095] == (a + b)[..4095]
  {
    assert a + (b + c) == (a + b) + c;
  }

  lemma {:induction false} LinesCut(buffer: Bytes, length: nat, t: Table)
    requires |buffer| == FILE_MAX_SIZE && length < FILE_MAX_SIZE <= length + |Lines(t)|
    ensures var (b, n) := BuildLines(buffer, length, t);
            n >= FILE_MAX_SIZE && b == (buffer[..length] + Lines(t))[..4095] + [0]
    decreases |t|
  {
    hide Line, Printed;
    var tail := Lines(t[1..]);
    if !t[0].inUse {
      LinesCut(buffer, length, t[1..]);
    } else {
      var line := Line(t[0]);
      var next := Printed(buffer, length, line);
      if length + |line| < FILE_MAX_SIZE {
        PrintedPrefix(buffer, length, line);
        LinesCut(next, length + |line|, t[1..]);
        Regroup3(buffer[..length], line, tail);
      } else {
        PrintedCut(buffer, length, line);
        NoRoomLeft(next, length + |line|, t[1..]);
        CutSame(buffer[..length], line, tail);
      }
    }
  }

  /** For any table: an image that does not fit is cut after 4095 octets and ended with a NUL. */
  lemma {:induction false} ImageCut(f: File, t: Table)
    requires Valid(f) && |ImageOf(t)| >= FILE_MAX_SIZE
    ensures Content(Build(f, t)) == ImageOf(t)[..4095] + [0]
  {
    hide BuildLines, Lines, Header, Printed;
    var first := Printed(f.buffer, 0, Header());
    PrintedPrefix(f.buffer, 0, Header());
    assert f.buffer[..0] + Header() == Header();
    LinesCut(first, 22, t);
    var (b, n) := BuildLines(first, 22, t);
    assert b[..FILE_MAX_SIZE] == b;
  }

  /** One read gives as much as it may: no more than asked, no more than the limit, and no less
      than the smaller of them unless the file ends first, which it says. */
  lemma ReadIsMaximal(content: Bytes, start: nat, count: nat, limit: nat)
    ensures var (data, eof) := Read(content, start, count, limit);
            && |data| <= count && |data| <= limit
            && (start <= |content| ==> start + |data| <= |content| && data == content[start..start + |data|])
            && (|data| < count && |data| < limit ==> eof)
            && (eof <==> start + |data| >= |content|)
            && (start >= |content| ==> data == [])
  {
  }

  /** The example of the source, in the file: a device with Analog Value 100 at 42.5. */
  lemma {:induction false} ExampleFile(f: File, t: Table, k: nat)
    requires Valid(f) && k < |t| && t[k] == Slot(true, 100, Number(false, 425, -1))
    requires forall i :: 0 <= i < |t| && i != k ==> !t[i].inUse
    ensures Content(Build(f, t)) == Ascii("B-AEC configuration 1\n") + Ascii("analog-value 100 42.5\n")
  {
    hide Build, ImageOf;
    ExampleImage(t, k);
    ImageBuilt(f, t);
  }
}
