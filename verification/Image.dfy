/** The configuration image: one text line for each Analog Value after a header line. */
module Image {
  import opened Octets
  import opened Decimal
  import opened Floats
  import opened AnalogValues

  const NEWLINE: byte := 10
  const FILE_MAX_SIZE := 4096
  const MAX_INSTANCE := 4194302

  function Ascii(s: string): (r: Bytes)
    requires forall i :: 0 <= i < |s| ==> s[i] < 128 as char
    ensures |r| == |s|
  {
    seq(|s|, i requires 0 <= i < |s| => s[i] as int)
  }

  function Header(): (h: Bytes)
    ensures |h| == 22
  {
    Ascii("B-AEC configuration 1\n")
  }

  function Name(): (n: Bytes)
    ensures |n| == 12
  {
    Ascii("analog-value")
  }

  // ---- Printing ----

  /** `"%s %u %.6g\n"` */
  function Line(s: Slot): Bytes {
    LineText(s.instance, s.value) + [NEWLINE]
  }

  function LineText(instance: Unsigned32, value: Value): Bytes {
    Name() + (([SPACE] + Digits(instance)) + ([SPACE] + Print6g(value)))
  }

  function Lines(t: Table): Bytes {
    if t == [] then [] else (if t[0].inUse then Line(t[0]) else []) + Lines(t[1..])
  }

  function ImageOf(t: Table): Bytes {
    Header() + Lines(t)
  }

  // ---- Parsing ----

  datatype Entry = Entry(instance: Unsigned32, value: Value)

  /** An accepted image's entries; a rejected one's entries before the line that failed; and the
      entries before a line with a value that this model has no number for. */
  datatype Outcome =
    | Accepted(entries: seq<Entry>)
    | Rejected(entries: seq<Entry>)
    | Foreign(entries: seq<Entry>)

  /** Where the first newline is, or the end. */
  function LineEnd(s: Bytes): (n: nat)
    ensures n <= |s|
  {
    if s == [] || s[0] == NEWLINE then 0 else 1 + LineEnd(s[1..])
  }

  /** What the C string functions see: everything before the first NUL. */
  function CString(s: Bytes): (r: Bytes)
    ensures |r| <= |s|
  {
    if s == [] || s[0] == 0 then [] else [s[0]] + CString(s[1..])
  }

  predicate StartsWithName(line: Bytes) {
    |line| >= 12 && line[..12] == Name()
  }

  /** The weight of the first digit, as a power of ten. */
  function Magnitude(d: Number): int {
    d.exponent + |Digits(d.coefficient)| - 1
  }

  /** The decimals that convert to zero or a normal 32-bit float: from 1.17549436e-38 to
      3.40282346e38. */
  predicate InFloatRange(v: Number) {
    var first := Pow10(|Digits(v.coefficient)| - 1);
    v.coefficient == 0 ||
    (&& -38 <= Magnitude(v) <= 38
     && (Magnitude(v) == -38 ==> v.coefficient * 100_000_000 >= 117549436 * first)
     && (Magnitude(v) == 38 ==> v.coefficient * 100_000_000 <= 340282346 * first))
  }

  /** A letter, in either case. */
  predicate IsLetter(b: byte, lower: char)
    requires 'a' <= lower <= 'z'
  {
    b == lower as int || b == lower as int - 32
  }

  /** `strtod` also reads infinities, NaNs and hexadecimal numbers. */
  predicate NotDecimal(s: Bytes) {
    var start := LeadingSpaces(s);
    var body := s[start + SignLength(s[start..])..];
    || (|body| >= 3 && IsLetter(body[0], 'i') && IsLetter(body[1], 'n') && IsLetter(body[2], 'f'))
    || (|body| >= 3 && IsLetter(body[0], 'n') && IsLetter(body[1], 'a') && IsLetter(body[2], 'n'))
    || (|body| >= 2 && body[0] == 48 && IsLetter(body[1], 'x'))
  }

  datatype LineOutcome = Good(entry: Entry) | Bad | Unknown

  /** The instance and value after the object type, both whole and nothing behind them. */
  function ParseLine(line: Bytes): LineOutcome
    requires StartsWithName(line)
  {
    var text := CString(line[12..]);
    var (instance, used) := StrToUL(text);
    var rest := Drop(text, used);
    var (value, taken) := StrToD(rest);
    if used == 0 || instance > MAX_INSTANCE then Bad
    else if NotDecimal(rest) then Unknown
    else if taken == 0 || taken != |rest| then Bad
    else if !InFloatRange(value) then Unknown
    else
      NormalRead(rest);
      Good(Entry(instance, Single(value)))
  }

  lemma NormalRead(s: Bytes)
    ensures Normal(StrToD(s).0)
  {
  }

  function ParseLines(s: Bytes, entries: seq<Entry>): (r: Outcome)
    requires |entries| <= MAX_CREATED
    ensures |r.entries| <= MAX_CREATED && entries <= r.entries
    decreases |s|
  {
    if s == [] then Accepted(entries)
    else
      var line, rest := s[..LineEnd(s)], Drop(s, LineEnd(s) + 1);
      if line == [] then ParseLines(rest, entries)
      else if !StartsWithName(line) || |entries| >= MAX_CREATED then Rejected(entries)
      else
        match ParseLine(line)
        case Bad => Rejected(entries)
        case Unknown => Foreign(entries)
        case Good(entry) => ParseLines(rest, entries + [entry])
  }

  function Parse(image: Bytes): (r: Outcome)
    ensures |r.entries| <= MAX_CREATED
  {
    if |image| < 22 || image[..22] != Header() then Rejected([]) else ParseLines(image[22..], [])
  }

  /** What the device makes of an image: with a value this model has no number for, whatever
      `other` says of the entries from that line on. */
  function Settle(o: Outcome, other: Outcome): (r: Outcome)
    requires |o.entries| <= MAX_CREATED
    ensures |r.entries| <= MAX_CREATED && !r.Foreign?
  {
    if !o.Foreign? then o
    else
      var room := MAX_CREATED - |o.entries|;
      var more := if |other.entries| <= room then other.entries else other.entries[..room];
      if other.Accepted? then Accepted(o.entries + more) else Rejected(o.entries + more)
  }

  // ---- Round trip ----

  /** No newline and no NUL. */
  predicate Plain(s: Bytes) {
    forall i :: 0 <= i < |s| ==> s[i] >= SPACE
  }

  lemma {:induction false} LineEndIs(s: Bytes, rest: Bytes)
    requires Plain(s)
    ensures LineEnd(s + [NEWLINE] + rest) == |s|
    decreases |s|
  {
    var t := s + [NEWLINE] + rest;
    if s != [] {
      assert t[1..] == s[1..] + [NEWLINE] + rest;
      LineEndIs(s[1..], rest);
    }
  }

  lemma {:induction false} CStringIs(s: Bytes)
    requires Plain(s)
    ensures CString(s) == s
    decreases |s|
  {
    if s != [] {
      CStringIs(s[1..]);
    }
  }

  lemma PlainText(l: Layout)
    requires AllDigits(l.whole) && AllDigits(l.fraction)
    ensures Plain(Text(l))
  {
    hide Digits;
    if l.exponent.Some? {
      var x := l.exponent.value;
      var magnitude := if x < 0 then -x else x;
      assert AllDigits((if magnitude < 10 then [48] else []) + Digits(magnitude));
      assert Plain(ExponentText(x));
    }
  }

  lemma {:induction false} PlainNumber(v: Value)
    ensures Plain(Print6g(v))
  {
    hide Digits, NatOf, Text;
    LayoutMeans(Round6(v));
    PlainText(LayoutOf(Round6(v)));
  }

  lemma {:induction false} PlainLine(instance: Unsigned32, value: Value)
    ensures Plain(LineText(instance, value))
    ensures StartsWithName(LineText(instance, value))
    ensures LineText(instance, value)[12..] == ([SPACE] + Digits(instance)) + ([SPACE] + Print6g(value))
  {
    hide Digits, Print6g;
    PlainNumber(value);
    var line := LineText(instance, value);
    assert line[..12] == Name();
    assert Plain(Name());
    assert Plain([SPACE] + Digits(instance));
    assert Plain([SPACE] + Print6g(value));
    assert Plain(line);
  }

  /** What a value becomes when it is printed and read again. */
  function Reread(v: Value): Value {
    Single(Round6(v))
  }

  lemma {:induction false} PrintedIsDecimal(v: Value)
    ensures !NotDecimal([SPACE] + Print6g(v))
  {
    hide Digits, NatOf, Text, LayoutOf, Round6;
    var r := Round6(v);
    var text := Text(LayoutOf(r));
    LayoutMeans(r);
    TextStarts(LayoutOf(r));
    TextNotHex(LayoutOf(r));
    var s := [SPACE] + Print6g(v);
    assert s[1..] == Print6g(v);
    assert LeadingSpaces(s[1..]) == 0;
    assert s[1 + SignLength(s[1..])..] == text;
  }

  lemma TextNotHex(l: Layout)
    requires l.whole != [] && AllDigits(l.whole) && AllDigits(l.fraction)
    ensures |Text(l)| >= 2 ==> IsDigit(Text(l)[1]) || Text(l)[1] == POINT || Text(l)[1] == LOWER_E
  {
    hide Digits;
  }

  /** A printed line is read back, with the float nearest to its six digits, exactly when its
      instance is one an object can have. */
  lemma {:induction false} LineReads(instance: Unsigned32, value: Value)
    requires InFloatRange(Round6(value))
    ensures StartsWithName(LineText(instance, value))
    ensures ParseLine(LineText(instance, value)) ==
            if instance <= MAX_INSTANCE then Good(Entry(instance, Reread(value))) else Bad
  {
    hide Digits, Print6g, StrToUL, StrToD, Plain, LineText, Round6, Single, NotDecimal, InFloatRange;
    PlainLine(instance, value);
    var number := [SPACE] + Digits(instance);
    var tail := [SPACE] + Print6g(value);
    PlainTail(instance, value);
    CStringIs(number + tail);
    UnsignedReads(instance, tail);
    Print6gReads(value);
    PrintedIsDecimal(value);
    DropPrefix(number, tail);
  }

  lemma {:induction false} PlainTail(instance: Unsigned32, value: Value)
    ensures Plain(([SPACE] + Digits(instance)) + ([SPACE] + Print6g(value)))
  {
    hide Digits, Print6g;
    PlainNumber(value);
    assert Plain([SPACE] + Digits(instance));
  }

  lemma {:induction false} StepLine(s: Slot, rest: Bytes, entries: seq<Entry>)
    requires s.inUse && |entries| < MAX_CREATED && InFloatRange(Round6(s.value))
    ensures ParseLines(Line(s) + rest, entries) ==
            if s.instance <= MAX_INSTANCE then ParseLines(rest, entries + [Entry(s.instance, Reread(s.value))])
            else Rejected(entries)
  {
    hide LineText, ParseLine, Round6, Reread, Plain, StartsWithName, InFloatRange;
    var line := LineText(s.instance, s.value);
    PlainLine(s.instance, s.value);
    LineReads(s.instance, s.value);
    LineEndIs(line, rest);
    var all := line + [NEWLINE] + rest;
    assert all[..|line|] == line;
    DropPrefix(line + [NEWLINE], rest);
    NameIsThere(line);
  }

  lemma NameIsThere(line: Bytes)
    requires StartsWithName(line)
    ensures line != []
  {
  }

  /** The entries a table's image names, in slot order. */
  function Entries(t: Table): seq<Entry> {
    if t == [] then []
    else (if t[0].inUse then [Entry(t[0].instance, Reread(t[0].value))] else []) + Entries(t[1..])
  }

  predicate AllInFloatRange(t: Table) {
    forall i :: 0 <= i < |t| && t[i].inUse ==> InFloatRange(Round6(t[i].value))
  }

  lemma InRangeTail(t: Table)
    requires t != [] && AllInFloatRange(t)
    ensures AllInFloatRange(t[1..])
  {
    hide InFloatRange, Round6;
    assert forall i :: 0 <= i < |t[1..]| ==> t[1..][i] == t[i + 1];
  }

  predicate Restorable(t: Table) {
    forall i :: 0 <= i < |t| && t[i].inUse ==> t[i].instance <= MAX_INSTANCE
  }

  lemma {:induction false} LinesRead(t: Table, entries: seq<Entry>)
    requires |entries| + |t| <= MAX_CREATED && AllInFloatRange(t)
    ensures Restorable(t) ==> ParseLines(Lines(t), entries) == Accepted(entries + Entries(t))
    ensures !Restorable(t) ==> ParseLines(Lines(t), entries).Rejected?
    decreases |t|
  {
    hide Line, Round6, Reread, ParseLines, Restorable, InFloatRange;
    if t == [] {
      assert entries + Entries(t) == entries;
      NoLines(entries);
    } else {
      RestorableStep(t);
      InRangeTail(t);
      var rest := Entries(t[1..]);
      if !t[0].inUse {
        assert Lines(t) == Lines(t[1..]) && Entries(t) == rest;
        LinesRead(t[1..], entries);
      } else {
        var entry := Entry(t[0].instance, Reread(t[0].value));
        StepLine(t[0], Lines(t[1..]), entries);
        if t[0].instance <= MAX_INSTANCE {
          LinesRead(t[1..], entries + [entry]);
          assert entries + [entry] + rest == entries + ([entry] + rest);
        }
      }
    }
  }

  lemma NoLines(entries: seq<Entry>)
    requires |entries| <= MAX_CREATED
    ensures ParseLines([], entries) == Accepted(entries)
    ensures Restorable([])
  {
  }

  lemma RestorableStep(t: Table)
    requires t != []
    ensures Restorable(t) <==> (t[0].inUse ==> t[0].instance <= MAX_INSTANCE) && Restorable(t[1..])
  {
    assert forall i :: 0 < i < |t| ==> t[i] == t[1..][i - 1];
    assert forall i :: 0 <= i < |t[1..]| ==> t[1..][i] == t[i + 1];
  }

  /** An image parses back to its table's entries exactly when every instance is one an
      object can have. */
  lemma {:induction false} ImageReads(t: Table)
    requires |t| <= MAX_CREATED && AllInFloatRange(t)
    ensures if Restorable(t) then Parse(ImageOf(t)) == Accepted(Entries(t)) else Parse(ImageOf(t)).Rejected?
  {
    hide ParseLines, Lines, Header, AllInFloatRange;
    assert ImageOf(t)[..22] == Header() && ImageOf(t)[22..] == Lines(t);
    LinesRead(t, []);
    assert [] + Entries(t) == Entries(t);
  }

  // ---- Size ----

  lemma ExponentLength(x: int)
    requires -99 <= x <= 99
    ensures |ExponentText(x)| == 4
  {
    var magnitude := if x < 0 then -x else x;
    if magnitude >= 10 {
      assert |Digits(magnitude / 10)| == 1;
    }
  }

  lemma LayoutLength(d: Number)
    requires d.coefficient < SIX_DIGITS && (d.coefficient == 0 || -99 <= Magnitude(d) <= 99)
    ensures |Text(LayoutOf(d))| <= 11
  {
    hide Digits, ExponentText;
    DigitsLength(d.coefficient, 6) by { assert Pow10(6) == SIX_DIGITS; }
    if d.coefficient != 0 {
      ExponentLength(Magnitude(d));
    }
  }

  lemma LineLength(s: Slot)
    requires InFloatRange(Round6(s.value))
    ensures |Line(s)| <= 37
  {
    hide Digits, Text, LayoutOf, Round6;
    DigitsLength(s.instance, 10) by { assert Pow10(10) == 10_000_000_000; }
    LayoutLength(Round6(s.value));
  }

  /** With values a float can have, no image comes near the size of the file. */
  lemma {:induction false} LinesLength(t: Table)
    requires AllInFloatRange(t)
    ensures |Lines(t)| <= 37 * |t|
    decreases |t|
  {
    hide Line, InFloatRange, Round6;
    if t != [] {
      if t[0].inUse {
        LineLength(t[0]);
      }
      InRangeTail(t);
      LinesLength(t[1..]);
    }
  }

  lemma ImageLength(t: Table)
    requires |t| == MAX_CREATED && AllInFloatRange(t)
    ensures |ImageOf(t)| <= 318 < FILE_MAX_SIZE
  {
    hide Lines;
    LinesLength(t);
  }

  // ---- The grammar of a line ----

  predicate NoNul(s: Bytes) {
    forall i :: 0 <= i < |s| ==> s[i] != 0
  }

  /** The C string ends at the first NUL, whatever follows it. */
  lemma {:induction false} CStringCuts(s: Bytes, rest: Bytes)
    requires NoNul(s) && (rest == [] || rest[0] == 0)
    ensures CString(s + rest) == s
    decreases |s|
  {
    if s == [] {
      assert s + rest == rest;
    } else {
      assert (s + rest)[1..] == s[1..] + rest;
      CStringCuts(s[1..], rest);
    }
  }

  /** A line from where its instance ends. */
  lemma {:induction false} LineFrom(text: Bytes, ignored: Bytes, instance: nat, used: nat, rest: Bytes)
    requires NoNul(text) && (ignored == [] || ignored[0] == 0)
    requires StrToUL(text) == (instance, used) && Drop(text, used) == rest
    ensures Normal(StrToD(rest).0)
    ensures var line := Name() + (text + ignored);
            var (value, taken) := StrToD(rest);
            && StartsWithName(line)
            && ParseLine(line) == if used == 0 || instance > MAX_INSTANCE then Bad
                                  else if NotDecimal(rest) then Unknown
                                  else if taken == 0 || taken != |rest| then Bad
                                  else if InFloatRange(value) then Good(Entry(instance, Single(value)))
                                  else Unknown
  {
    hide StrToUL, StrToD, Name, InFloatRange, Single, NoNul, NotDecimal;
    var line := Name() + (text + ignored);
    assert line[..12] == Name() && line[12..] == text + ignored;
    CStringCuts(text, ignored);
    NormalRead(rest);
  }

  /** What a line may say behind the object type: an instance and a value. */
  datatype Fields = Fields(
    spaces: Bytes,
    sign: Bytes,
    digits: Bytes,
    valueSpaces: Bytes,
    valueSign: Bytes,
    value: Spelling,
    upper: bool)

  predicate WellSpelled(f: Fields) {
    && AllSpaces(f.spaces) && SignOrNot(f.sign) && f.digits != [] && AllDigits(f.digits)
    && AllSpaces(f.valueSpaces) && SignOrNot(f.valueSign) && Spelled(f.value)
    && NotDigitNext(f.valueSpaces + (f.valueSign + SpellingText(f.value, f.upper)))
  }

  function ValueText(f: Fields): Bytes {
    f.valueSpaces + (f.valueSign + SpellingText(f.value, f.upper))
  }

  function FieldsText(f: Fields): Bytes {
    f.spaces + (f.sign + (f.digits + ValueText(f)))
  }

  /** The instance as an unsigned number of 64 bits. */
  function InstanceOf(f: Fields): nat
    requires AllDigits(f.digits)
  {
    var n := NatOf(f.digits);
    if n >= ULONG_RANGE then ULONG_RANGE - 1
    else if f.sign == [45] && n > 0 then ULONG_RANGE - n
    else n
  }

  /** A line with something behind its two numbers is refused; one without is good exactly when
      the instance is at most 4194302, and its value is the float nearest to the decimal. */
  lemma {:induction false} LineMeans(f: Fields, junk: Bytes, ignored: Bytes)
    requires WellSpelled(f) && NoNul(FieldsText(f) + junk) && NumberEnds(junk) && (ignored == [] || ignored[0] == 0)
    requires !NotDecimal(ValueText(f) + junk)
    ensures Normal(SpellingValue(f.valueSign == [45], f.value))
    ensures var line := Name() + (FieldsText(f) + junk + ignored);
            var value := SpellingValue(f.valueSign == [45], f.value);
            && StartsWithName(line)
            && ParseLine(line) == if InstanceOf(f) > 4194302 || junk != [] then Bad
                                  else if InFloatRange(value) then Good(Entry(InstanceOf(f), Single(value)))
                                  else Unknown
  {
    hide StrToUL, StrToD, NotDecimal, InFloatRange, Single, SpellingText, SpellingValue, NatOf, NoNul, Name, Spelled,
         AllSpaces, SignOrNot, ParseLine, StartsWithName, InstanceOf, FieldsText, ValueText, NumberEnds;
    var rest := ValueText(f) + junk;
    Behind(f, junk);
    InstanceReads(f, rest);
    ValueReads(f, junk);
    LineFrom(FieldsText(f) + junk, ignored, InstanceOf(f), |f.spaces| + |f.sign| + |f.digits|, rest);
  }

  lemma {:induction false} InstanceReads(f: Fields, rest: Bytes)
    requires WellSpelled(f) && NotDigitNext(rest)
    ensures var text := f.spaces + (f.sign + (f.digits + rest));
            var used := |f.spaces| + |f.sign| + |f.digits|;
            StrToUL(text) == (InstanceOf(f), used) && used > 0 && Drop(text, used) == rest
  {
    hide StrToUL, NatOf, Spelled, AllSpaces, SignOrNot;
    StrToULReads(f.spaces, f.sign, f.digits, rest);
    BehindFront(f.spaces, f.sign, f.digits, rest);
  }

  lemma {:induction false} ValueReads(f: Fields, junk: Bytes)
    requires WellSpelled(f) && NumberEnds(junk)
    ensures var taken := |ValueText(f)|;
            StrToD(ValueText(f) + junk) == (SpellingValue(f.valueSign == [45], f.value), taken) && taken > 0
  {
    hide StrToD, SpellingText, SpellingValue, AllSpaces, SignOrNot;
    var spelled := SpellingText(f.value, f.upper);
    Regroup3(f.valueSpaces, f.valueSign + spelled, junk);
    Regroup3(f.valueSign, spelled, junk);
    BodyStarts(f.value, f.upper, []);
    StrToDReads(f.valueSpaces, f.valueSign, f.value, f.upper, junk);
  }

  lemma Behind(f: Fields, junk: Bytes)
    requires WellSpelled(f)
    ensures FieldsText(f) + junk == f.spaces + (f.sign + (f.digits + (ValueText(f) + junk)))
    ensures NotDigitNext(ValueText(f) + junk)
  {
    hide SpellingText, Spelled;
    var v := ValueText(f);
    Regroup4(f.spaces, f.sign, f.digits, v);
    Regroup3(f.spaces, f.sign, f.digits + v);
    BodyStarts(f.value, f.upper, []);
    assert v != [] && (v + junk)[0] == v[0];
  }

  /** An infinity, a NaN or a hexadecimal number, in either case, is read, as no decimal. */
  lemma {:induction false} OtherSpelling(spaces: Bytes, sign: Bytes, body: Bytes)
    requires AllSpaces(spaces) && SignOrNot(sign) && |body| >= 3
    requires || body[..3] in {[105, 110, 102], [73, 78, 70], [110, 97, 110], [78, 97, 78], [78, 65, 78]}
             || body[..2] in {[48, 120], [48, 88]}
    ensures NotDecimal(spaces + (sign + body))
  {
    hide LeadingSpaces, SignLength, Negative, AllSpaces, SignOrNot;
    assert body[0] == body[..3][0] && body[1] == body[..3][1] && body[2] == body[..3][2];
    assert body[0] == body[..2][0] && body[1] == body[..2][1];
    assert !Blank(body[0]) && body[0] != 43 && body[0] != 45;
    FrontSkipped(spaces, sign, body);
  }

  /** A line with a good instance and such a value is neither good nor refused here. */
  lemma {:induction false} LineUnknown(spaces: Bytes, digits: Bytes, value: Bytes)
    requires AllSpaces(spaces) && digits != [] && AllDigits(digits) && NatOf(digits) <= 4194302
    requires NoNul(value) && NotDigitNext(value) && NotDecimal(value)
    ensures var line := Name() + (spaces + ([] + (digits + value)));
            StartsWithName(line) && ParseLine(line) == Unknown
  {
    hide StrToUL, StrToD, Name, InFloatRange, Single, NoNul, AllSpaces, AllDigits, NotDecimal, NatOf, ParseLine,
         StartsWithName, NotDigitNext;
    var text := spaces + ([] + (digits + value));
    ValueHasNoNul(spaces, digits, value);
    StrToULReads(spaces, [], digits, value);
    BehindFront(spaces, [], digits, value);
    assert text + [] == text;
    LineFrom(text, [], NatOf(digits), |spaces| + |digits|, value);
  }

  lemma ValueHasNoNul(spaces: Bytes, digits: Bytes, value: Bytes)
    requires AllSpaces(spaces) && AllDigits(digits) && NoNul(value)
    ensures NoNul(spaces + ([] + (digits + value)))
  {
    assert NoNul(spaces) && NoNul(digits);
  }

  /** What a float can be near: the largest is 3.40282e+38, the smallest normal one 1.17550e-38. */
  lemma {:induction false} RangeExamples()
    ensures InFloatRange(Number(false, 340282, 33)) && !InFloatRange(Number(false, 340283, 33))
    ensures InFloatRange(Number(true, 11755, -42)) && !InFloatRange(Number(true, 117549, -43))
    ensures InFloatRange(Number(false, 0, 0)) && !InFloatRange(Number(false, 1, 39))
  {
    SixLong(340282);
    SixLong(340283);
    SixLong(117549);
    SixLong(117550);
    DigitsOf(117550);
    assert |Digits(11755)| == 5;
    assert Pow10(5) == 100000 && Pow10(4) == 10000 && Pow10(0) == 1;
  }

  lemma {:induction false} SixLong(n: nat)
    requires 100000 <= n <= 999999
    ensures |Digits(n)| == 6
  {
    hide Digits;
    DigitsLength(n, 6) by { assert Pow10(6) == 1000000; }
    DigitsBound(n);
    assert Pow10(5) == 100000;
    if |Digits(n)| <= 5 {
      Pow10Grows(|Digits(n)|, 5);
    }
  }

  /** A line without a value is refused. */
  lemma {:induction false} LineWithoutValue(spaces: Bytes, sign: Bytes, digits: Bytes, more: Bytes)
    requires AllSpaces(spaces) && SignOrNot(sign) && digits != [] && AllDigits(digits) && AllSpaces(more)
    ensures var line := Name() + (spaces + (sign + (digits + more)));
            StartsWithName(line) && ParseLine(line) == Bad
  {
    hide StrToUL, StrToD, Name, InFloatRange, Single, NoNul, AllSpaces, SignOrNot, AllDigits, NotDecimal, NatOf,
         ParseLine, StartsWithName, NotDigitNext;
    var text := spaces + (sign + (digits + more));
    NumbersHaveNoNul(spaces, sign, digits, more);
    SpacesAreNoDigits(more);
    StrToULReads(spaces, sign, digits, more);
    BehindFront(spaces, sign, digits, more);
    StrToDNothing(more);
    SpacesAreDecimal(more);
    assert text + [] == text;
    LineFrom(text, [], StrToUL(text).0, |spaces| + |sign| + |digits|, more);
  }

  /** So is one without an instance. */
  lemma {:induction false} LineWithoutInstance(spaces: Bytes, sign: Bytes)
    requires AllSpaces(spaces) && SignOrNot(sign)
    ensures var line := Name() + (spaces + (sign + []));
            StartsWithName(line) && ParseLine(line) == Bad
  {
    hide StrToUL, StrToD, Name, InFloatRange, Single, NoNul, AllSpaces, SignOrNot, NotDecimal, ParseLine,
         StartsWithName;
    var text := spaces + (sign + []);
    NumbersHaveNoNul(spaces, sign, [], []);
    assert sign + ([] + []) == sign + [] && text + [] == text && Drop(text, 0) == text;
    StrToULNothing(spaces, sign, []);
    LineFrom(text, [], 0, 0, text);
  }

  lemma NumbersHaveNoNul(spaces: Bytes, sign: Bytes, digits: Bytes, more: Bytes)
    requires AllSpaces(spaces) && SignOrNot(sign) && AllDigits(digits) && AllSpaces(more)
    ensures NoNul(spaces + (sign + (digits + more)))
  {
    assert NoNul(spaces) && NoNul(sign) && NoNul(digits) && NoNul(more);
  }

  lemma BehindFront(spaces: Bytes, sign: Bytes, digits: Bytes, more: Bytes)
    ensures Drop(spaces + (sign + (digits + more)), |spaces| + |sign| + |digits|) == more
  {
    var front := spaces + (sign + digits);
    assert spaces + (sign + (digits + more)) == front + more;
    DropPrefix(front, more);
  }

  lemma SpacesAreNoDigits(spaces: Bytes)
    requires AllSpaces(spaces)
    ensures NotDigitNext(spaces)
  {
  }

  lemma {:induction false} SpacesAreDecimal(spaces: Bytes)
    requires AllSpaces(spaces)
    ensures !NotDecimal(spaces)
  {
    assert spaces + [] == spaces;
    SpacesSkipped(spaces, []);
  }

  // ---- The grammar of an image ----

  /** Nothing is accepted without the header line. */
  lemma ParseNeedsHeader(image: Bytes)
    ensures |image| < 22 || image[..22] != Header() ==> Parse(image) == Rejected([])
  {
  }

  /** Empty lines are passed over. */
  lemma {:induction false} EmptyLine(rest: Bytes, entries: seq<Entry>)
    requires |entries| <= MAX_CREATED
    ensures ParseLines([NEWLINE] + rest, entries) == ParseLines(rest, entries)
  {
    hide ParseLine;
    var s := [NEWLINE] + rest;
    assert LineEnd(s) == 0 && s[..0] == [];
    DropPrefix([NEWLINE], rest);
  }

  predicate OneLine(line: Bytes) {
    line != [] && forall i :: 0 <= i < |line| ==> line[i] != 10
  }

  lemma {:induction false} OneLineEnds(line: Bytes, rest: Bytes)
    requires (forall i :: 0 <= i < |line| ==> line[i] != 10) && (rest == [] || rest[0] == 10)
    ensures LineEnd(line + rest) == |line|
    decreases |line|
  {
    if line == [] {
      assert line + rest == rest;
    } else {
      assert (line + rest)[1..] == line[1..] + rest;
      OneLineEnds(line[1..], rest);
    }
  }

  /** Line by line, with or without a newline at the end: a good line adds its entry while there
      are fewer than eight, and anything else ends the parse. */
  lemma {:induction false} ParseOneLine(line: Bytes, last: bool, rest: Bytes, entries: seq<Entry>)
    requires OneLine(line) && |entries| <= MAX_CREATED && (last ==> rest == [])
    ensures var s := if last then line else line + ([10] + rest);
            ParseLines(s, entries) ==
            if !StartsWithName(line) || |entries| >= 8 || ParseLine(line).Bad? then Rejected(entries)
            else if ParseLine(line).Unknown? then Foreign(entries)
            else ParseLines(rest, entries + [ParseLine(line).entry])
  {
    hide ParseLine, StartsWithName;
    var tail := if last then [] else [10] + rest;
    var s := line + tail;
    assert last ==> s == line;
    OneLineEnds(line, tail);
    assert s[..|line|] == line;
    if last {
      assert Drop(s, |line| + 1) == [];
    } else {
      DropPrefix(line + [10], rest);
      assert s == (line + [10]) + rest;
    }
  }

  // ---- Known texts ----

  lemma {:induction false} DigitsOf(n: nat)
    requires 10 <= n
    ensures Digits(n) == Digits(n / 10) + [48 + n % 10]
  {
  }

  lemma {:induction false} SmallDigits()
    ensures Digits(425) == [52, 50, 53] && Digits(25) == [50, 53] && Digits(15) == [49, 53]
    ensures Digits(100) == [49, 48, 48]
    ensures Digits(0) == [48] && Digits(1) == [49] && Digits(6) == [54] && Digits(5) == [53]
  {
    DigitsOf(425);
    DigitsOf(42);
    DigitsOf(25);
    DigitsOf(15);
    DigitsOf(100);
    DigitsOf(10);
  }

  lemma {:induction false} PrintFixed()
    ensures Print6g(Number(false, 425, -1)) == Ascii("42.5")
    ensures Print6g(Number(true, 1, 2)) == Ascii("-100")
  {
    hide Digits;
    SmallDigits();
    assert LayoutOf(Number(false, 425, -1)) == Layout([52, 50], [53], None);
    assert LayoutOf(Number(true, 1, 2)) == Layout([49, 48, 48], [], None);
  }

  lemma {:induction false} PrintSmall()
    ensures Print6g(Number(false, 25, -5)) == Ascii("0.00025")
  {
    hide Digits;
    SmallDigits();
    assert Zeros(3) + [50, 53] == [48, 48, 48, 50, 53];
    assert LayoutOf(Number(false, 25, -5)) == Layout([48], [48, 48, 48, 50, 53], None);
  }

  lemma {:induction false} PrintZero(negative: bool)
    ensures Print6g(Number(negative, 0, 0)) == if negative then Ascii("-0") else Ascii("0")
  {
    hide Digits;
  }

  lemma {:induction false} PrintScientific()
    ensures Print6g(Number(false, 1, 6)) == Ascii("1e+06")
    ensures Print6g(Number(true, 15, -6)) == Ascii("-1.5e-05")
  {
    hide Digits;
    SmallDigits();
    assert LayoutOf(Number(false, 1, 6)) == Layout([49], [], Some(6));
    assert LayoutOf(Number(true, 15, -6)) == Layout([49], [53], Some(-5));
    assert ExponentText(6) == Ascii("e+06") && ExponentText(-5) == Ascii("e-05");
  }

  lemma {:induction false} OnlyLine(t: Table, k: nat)
    requires k < |t| && t[k].inUse && forall i :: 0 <= i < |t| && i != k ==> !t[i].inUse
    ensures Lines(t) == Line(t[k])
    decreases |t|
  {
    hide Line;
    assert forall i :: 0 <= i < |t[1..]| ==> t[1..][i] == t[i + 1];
    if k > 0 {
      OnlyLine(t[1..], k - 1);
    } else {
      NoLine(t[1..]);
      assert Line(t[0]) + [] == Line(t[0]);
    }
  }

  lemma {:induction false} NoLine(t: Table)
    requires forall i :: 0 <= i < |t| ==> !t[i].inUse
    ensures Lines(t) == []
    decreases |t|
  {
    if t != [] {
      assert forall i :: 0 <= i < |t[1..]| ==> t[1..][i] == t[i + 1];
      NoLine(t[1..]);
    }
  }

  lemma {:induction false} ExampleLine(s: Slot)
    requires s == Slot(true, 100, Number(false, 425, -1))
    ensures Line(s) == Ascii("analog-value 100 42.5\n")
  {
    hide Print6g, Digits;
    PrintFixed();
    SmallDigits();
  }

  /** The image of one Analog Value 100 at 42.5, as the source's own example shows it. */
  lemma {:induction false} ExampleImage(t: Table, k: nat)
    requires k < |t| && t[k] == Slot(true, 100, Number(false, 425, -1))
    requires forall i :: 0 <= i < |t| && i != k ==> !t[i].inUse
    ensures ImageOf(t) == Ascii("B-AEC configuration 1\n") + Ascii("analog-value 100 42.5\n")
  {
    hide Lines, Line;
    OnlyLine(t, k);
    ExampleLine(t[k]);
  }

  /** Every line: the object type, the instance in decimal and the value as C prescribes it. */
  lemma {:induction false} LineSpelled(s: Slot)
    ensures var l := LayoutOf(Round6(s.value));
            && CStyle(l, Round6(s.value))
            && NatOf(Digits(s.instance)) == s.instance && (|Digits(s.instance)| > 1 ==> Digits(s.instance)[0] != 48)
            && Line(s) == Ascii("analog-value") + (([32] + Digits(s.instance)) +
                          ([32] + (SignText(s.value.negative) + Text(l)))) + [10]
  {
    hide Digits, Text, LayoutOf, CStyle, Round6;
    LayoutIsCStyle(Round6(s.value));
    NatOfDigits(s.instance);
    DigitsShape(s.instance);
  }
}
