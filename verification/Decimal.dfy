/** Numbers as text: what `%u` and `%.6g` print and what `strtoul` and `strtod` read back.
    A Present_Value is a decimal in lowest terms, `coefficient * 10^exponent`. */
module Decimal {
  import opened Octets

  const SPACE: byte := 32
  const PLUS: byte := 43
  const MINUS: byte := 45
  const POINT: byte := 46
  const LOWER_E: byte := 101
  const UPPER_E: byte := 69

  // ---- Digits ----

  predicate IsDigit(b: byte) {
    48 <= b <= 57
  }

  predicate AllDigits(s: Bytes) {
    forall i :: 0 <= i < |s| ==> IsDigit(s[i])
  }

  function Pow10(n: nat): (r: nat)
    ensures r >= 1
  {
    if n == 0 then 1 else 10 * Pow10(n - 1)
  }

  /** Decimal digits without leading zeros. */
  function Digits(n: nat): (s: Bytes)
    ensures s != [] && AllDigits(s)
  {
    if n < 10 then [48 + n] else Digits(n / 10) + [48 + n % 10]
  }

  function NatOf(s: Bytes): nat
    requires AllDigits(s)
  {
    if s == [] then 0 else NatOf(s[..|s| - 1]) * 10 + (s[|s| - 1] - 48)
  }

  lemma {:induction false} NatOfDigits(n: nat)
    ensures NatOf(Digits(n)) == n
  {
    if n >= 10 {
      NatOfDigits(n / 10);
      assert Digits(n)[..|Digits(n)| - 1] == Digits(n / 10);
    }
  }

  lemma {:induction false} DigitsLength(n: nat, k: nat)
    requires n < Pow10(k) && k > 0
    ensures |Digits(n)| <= k
    decreases k
  {
    if n >= 10 {
      DigitsLength(n / 10, k - 1);
    }
  }

  function Zeros(n: nat): (s: Bytes)
    ensures |s| == n && AllDigits(s)
  {
    seq(n, _ => 48)
  }

  lemma {:induction false} LeadingZeros(n: nat, s: Bytes)
    requires AllDigits(s)
    ensures NatOf(Zeros(n) + s) == NatOf(s)
    decreases |s|, n
  {
    var t := Zeros(n) + s;
    if s == [] {
      if n > 0 {
        assert t[..|t| - 1] == Zeros(n - 1) + [];
        LeadingZeros(n - 1, s);
      }
    } else {
      assert t[..|t| - 1] == Zeros(n) + s[..|s| - 1];
      LeadingZeros(n, s[..|s| - 1]);
    }
  }

  lemma {:induction false} TrailingZeros(s: Bytes, n: nat)
    requires AllDigits(s)
    ensures NatOf(s + Zeros(n)) == NatOf(s) * Pow10(n)
    decreases n
  {
    var t := s + Zeros(n);
    if n == 0 {
      assert t == s;
    } else {
      assert t[..|t| - 1] == s + Zeros(n - 1);
      TrailingZeros(s, n - 1);
    }
  }

  // ---- Reading ----

  /** `isspace` in the C locale. */
  predicate IsSpace(b: byte) {
    b == SPACE || 9 <= b <= 13
  }

  function LeadingSpaces(s: Bytes): (n: nat)
    ensures n <= |s|
  {
    if s != [] && IsSpace(s[0]) then 1 + LeadingSpaces(s[1..]) else 0
  }

  /** How many digits `s` starts with. */
  function DigitRun(s: Bytes): (n: nat)
    ensures n <= |s| && AllDigits(s[..n])
  {
    if s != [] && IsDigit(s[0]) then
      var n := 1 + DigitRun(s[1..]);
      assert forall i :: 0 < i < n ==> s[..n][i] == s[1..][..n - 1][i - 1];
      n
    else 0
  }

  lemma {:induction false} DigitRunIs(digits: Bytes, rest: Bytes)
    requires AllDigits(digits) && (rest == [] || !IsDigit(rest[0]))
    ensures DigitRun(digits + rest) == |digits|
    decreases |digits|
  {
    if digits == [] {
      assert digits + rest == rest;
    } else {
      assert (digits + rest)[1..] == digits[1..] + rest;
      DigitRunIs(digits[1..], rest);
    }
  }

  function SignLength(s: Bytes): nat {
    if s != [] && (s[0] == PLUS || s[0] == MINUS) then 1 else 0
  }

  predicate Negative(s: Bytes) {
    s != [] && s[0] == MINUS
  }

  const ULONG_RANGE := 0x1_0000_0000_0000_0000

  /** The value `strtoul(s, &end, 10)` returns and how far `end` moves; a minus sign negates
      modulo the range, a magnitude outside it gives the largest value. */
  function StrToUL(s: Bytes): (nat, nat) {
    var start := LeadingSpaces(s);
    var sign := SignLength(s[start..]);
    var digits := s[start + sign..];
    var n := DigitRun(digits);
    if n == 0 then (0, 0)
    else
      var magnitude := NatOf(digits[..n]);
      var value := if magnitude >= ULONG_RANGE then ULONG_RANGE - 1
                   else if Negative(s[start..]) && magnitude > 0 then ULONG_RANGE - magnitude
                   else magnitude;
      (value, start + sign + n)
  }

  datatype Number = Number(negative: bool, coefficient: nat, exponent: int)

  /** In lowest terms: no trailing zero in the coefficient. */
  predicate Normal(d: Number) {
    if d.coefficient == 0 then d.exponent == 0 else d.coefficient % 10 != 0
  }

  function Normalize(negative: bool, coefficient: nat, exponent: int): (d: Number)
    ensures Normal(d) && d.coefficient <= coefficient
    decreases coefficient
  {
    if coefficient == 0 then Number(negative, 0, 0)
    else if coefficient % 10 != 0 then Number(negative, coefficient, exponent)
    else Normalize(negative, coefficient / 10, exponent + 1)
  }

  /** The optional exponent part: its value and length; a bare `e` is not one. */
  function ExponentPart(s: Bytes): (int, nat) {
    if s == [] || (s[0] != LOWER_E && s[0] != UPPER_E) then (0, 0)
    else
      var sign := SignLength(s[1..]);
      var digits := s[1 + sign..];
      var n := DigitRun(digits);
      if n == 0 then (0, 0)
      else
        var magnitude: int := NatOf(digits[..n]);
        (if Negative(s[1..]) then -magnitude else magnitude, 1 + sign + n)
  }

  /** The optional fraction part after the whole digits, and its length with the point. */
  function FractionPart(s: Bytes): (r: (Bytes, nat))
    ensures AllDigits(r.0) && r.1 <= |s|
  {
    if s == [] || s[0] != POINT then ([], 0)
    else
      var n := DigitRun(s[1..]);
      (s[1..][..n], 1 + n)
  }

  /** An unsigned decimal: its number and how much of `s` it takes; nothing without a digit. */
  function Unsigned(negative: bool, s: Bytes): (Number, nat) {
    var whole := DigitRun(s);
    var (fraction, pointed) := FractionPart(s[whole..]);
    if whole == 0 && fraction == [] then (Number(false, 0, 0), 0)
    else
      var (exponent, scaled) := ExponentPart(s[whole + pointed..]);
      (Normalize(negative, NatOf(s[..whole] + fraction), exponent - |fraction|), whole + pointed + scaled)
  }

  /** What `strtod(s, &end)` returns for decimal text and how far `end` moves. */
  function StrToD(s: Bytes): (Number, nat) {
    var start := LeadingSpaces(s);
    var sign := SignLength(s[start..]);
    var (d, n) := Unsigned(Negative(s[start..]), s[start + sign..]);
    if n == 0 then (d, 0) else (d, start + sign + n)
  }

  // ---- Printing ----

  const SIX_DIGITS := 1_000_000

  /** `n / unit` rounded to the nearest, halves to even. */
  function RoundedQuotient(n: nat, unit: nat): (q: nat)
    requires unit > 0
    ensures n / unit <= q <= n / unit + 1
  {
    var q, r := n / unit, n % unit;
    if 2 * r > unit || (2 * r == unit && q % 2 == 1) then q + 1 else q
  }

  /** A coefficient of more than six digits cut to six. */
  function Shorten(negative: bool, coefficient: nat, exponent: int): (r: Number)
    requires coefficient >= SIX_DIGITS
    ensures Normal(r) && r.coefficient < SIX_DIGITS && r.negative == negative
  {
    LongDigits(coefficient);
    var dropped := |Digits(coefficient)| - 6;
    var rounded := RoundedQuotient(coefficient, Pow10(dropped));
    QuotientSmall(coefficient, dropped);
    NormalizeSmall(negative, rounded, exponent + dropped);
    Normalize(negative, rounded, exponent + dropped)
  }

  lemma NormalizeSmall(negative: bool, m: nat, e: int)
    requires m <= SIX_DIGITS
    ensures Normalize(negative, m, e).coefficient < SIX_DIGITS
    ensures Normalize(negative, m, e).negative == negative
  {
    NormalizeKeepsSign(negative, m, e);
    assert m == SIX_DIGITS ==> m % 10 == 0;
  }

  /** Rounds to six significant digits. */
  function Round6(d: Number): (r: Number)
    requires Normal(d)
    ensures Normal(r) && r.coefficient < SIX_DIGITS && r.negative == d.negative
  {
    if d.coefficient < SIX_DIGITS then d else Shorten(d.negative, d.coefficient, d.exponent)
  }

  lemma LongDigits(n: nat)
    requires n >= SIX_DIGITS
    ensures |Digits(n)| >= 7
  {
    assert n / 10 >= 100000 && n / 10 / 10 >= 10000 && n / 10 / 10 / 10 >= 1000;
    assert n / 10 / 10 / 10 / 10 >= 100 && n / 10 / 10 / 10 / 10 / 10 >= 10;
    assert |Digits(n / 10 / 10 / 10 / 10 / 10)| >= 2;
    assert |Digits(n / 10 / 10 / 10 / 10)| >= 3;
    assert |Digits(n / 10 / 10 / 10)| >= 4;
    assert |Digits(n / 10 / 10)| >= 5;
    assert |Digits(n / 10)| >= 6;
  }

  lemma {:induction false} DigitsBound(n: nat)
    ensures n < Pow10(|Digits(n)|)
  {
    if n >= 10 {
      DigitsBound(n / 10);
    }
  }

  lemma {:induction false} PowSplit(a: nat, b: nat)
    ensures Pow10(a + b) == Pow10(a) * Pow10(b)
    decreases a
  {
    if a > 0 {
      PowSplit(a - 1, b);
    }
  }

  lemma DivLess(n: nat, unit: nat, k: nat)
    requires unit > 0 && n < k * unit
    ensures n / unit < k
  {
    var q := n / unit;
    assert q * unit <= n;
    assert (q - k) * unit < 0;
  }

  lemma {:induction false} QuotientSmall(n: nat, dropped: nat)
    requires |Digits(n)| == dropped + 6
    ensures n / Pow10(dropped) < SIX_DIGITS
  {
    hide Digits;
    DigitsBound(n);
    PowSplit(6, dropped);
    assert Pow10(6) == SIX_DIGITS;
    DivLess(n, Pow10(dropped), SIX_DIGITS);
  }

  /** The parts of a printed number: digits, digits after a point, and an exponent. */
  datatype Layout = Layout(whole: Bytes, fraction: Bytes, exponent: Option<int>)

  /** `%.6g`: fixed notation while the first digit weighs 10^-4 to 10^5, else scientific. */
  function LayoutOf(d: Number): Layout {
    var digits := Digits(d.coefficient);
    var x := d.exponent + |digits| - 1;
    if d.coefficient == 0 then Layout([48], [], None)
    else if 0 <= x < 6 && d.exponent >= 0 then Layout(digits + Zeros(d.exponent), [], None)
    else if 0 <= x < 6 then Layout(digits[..x + 1], digits[x + 1..], None)
    else if -4 <= x < 0 then Layout([48], Zeros(-x - 1) + digits, None)
    else Layout(digits[..1], digits[1..], Some(x))
  }

  /** At least two digits, after a sign. */
  function ExponentText(x: int): Bytes {
    var magnitude := if x < 0 then -x else x;
    [LOWER_E, if x < 0 then MINUS else PLUS] + (if magnitude < 10 then [48] else []) + Digits(magnitude)
  }

  function FractionText(fraction: Bytes): Bytes {
    if fraction == [] then [] else [POINT] + fraction
  }

  function Text(l: Layout): Bytes {
    l.whole + (FractionText(l.fraction) + (if l.exponent.Some? then ExponentText(l.exponent.value) else []))
  }

  function SignText(negative: bool): Bytes {
    if negative then [MINUS] else []
  }

  /** What `%.6g` prints. */
  function Print6g(d: Number): Bytes
    requires Normal(d)
  {
    SignText(d.negative) + Text(LayoutOf(Round6(d)))
  }

  // ---- Round trip ----

  lemma ExponentReads(x: int)
    ensures ExponentPart(ExponentText(x)) == (x, |ExponentText(x)|)
  {
    hide Digits, NatOf, DigitRun;
    var magnitude := if x < 0 then -x else x;
    var digits := (if magnitude < 10 then [48] else []) + Digits(magnitude);
    var head := [LOWER_E, if x < 0 then MINUS else PLUS];
    var s := ExponentText(x);
    assert s == head + digits;
    assert s[2..] == digits && s[1] == head[1];
    DigitRunIs(digits, []);
    assert digits + [] == digits && digits[..|digits|] == digits;
    NatOfDigits(magnitude);
    if magnitude < 10 {
      assert digits == Zeros(1) + Digits(magnitude);
      LeadingZeros(1, Digits(magnitude));
    } else {
      assert digits == Digits(magnitude);
    }
  }

  lemma FractionReads(fraction: Bytes, rest: Bytes)
    requires AllDigits(fraction) && (rest == [] || rest[0] == LOWER_E)
    ensures FractionPart(FractionText(fraction) + rest) == (fraction, |FractionText(fraction)|)
  {
    hide DigitRun;
    if fraction == [] {
      assert FractionText(fraction) + rest == rest;
    } else {
      var s := FractionText(fraction) + rest;
      assert s[1..] == fraction + rest;
      DigitRunIs(fraction, rest);
      assert (fraction + rest)[..|fraction|] == fraction;
    }
  }

  function ExponentOf(l: Layout): int {
    if l.exponent.Some? then l.exponent.value else 0
  }

  lemma LayoutReads(negative: bool, l: Layout)
    requires l.whole != [] && AllDigits(l.whole) && AllDigits(l.fraction)
    ensures AllDigits(l.whole + l.fraction)
    ensures Unsigned(negative, Text(l)) ==
            (Normalize(negative, NatOf(l.whole + l.fraction), ExponentOf(l) - |l.fraction|), |Text(l)|)
  {
    hide DigitRun, NatOf, Normalize, ExponentPart, FractionPart, ExponentText, FractionText;
    var fraction := FractionText(l.fraction);
    var exponent := if l.exponent.Some? then ExponentText(l.exponent.value) else [];
    if l.exponent.Some? {
      ExponentReads(l.exponent.value);
      ExponentStarts(l.exponent.value);
    } else {
      NoExponent();
    }
    FractionStarts(l.fraction, exponent);
    DigitRunIs(l.whole, fraction + exponent);
    Parts(l.whole, fraction, exponent);
    FractionReads(l.fraction, exponent);
  }

  lemma Parts(a: Bytes, b: Bytes, c: Bytes)
    ensures var s := a + (b + c);
            s[|a|..] == b + c && s[..|a|] == a && s[|a| + |b|..] == c
  {
  }

  lemma ExponentStarts(x: int)
    ensures ExponentText(x) != [] && ExponentText(x)[0] == LOWER_E
  {
  }

  lemma FractionStarts(fraction: Bytes, rest: Bytes)
    requires rest == [] || rest[0] == LOWER_E
    ensures var s := FractionText(fraction) + rest;
            s == [] || !IsDigit(s[0])
  {
  }

  lemma NoExponent()
    ensures ExponentPart([]) == (0, 0)
  {
  }

  lemma {:induction false} TenTimes(m: nat, p: nat)
    requires m > 0 && p > 0
    ensures var scaled := m * (10 * p);
            scaled > 0 && scaled % 10 == 0 && scaled / 10 == m * p
  {
    assert m * (10 * p) == 10 * (m * p);
    assert m * p > 0;
  }

  lemma {:induction false} NormalizeScaled(negative: bool, m: nat, z: nat, e: int)
    requires m % 10 != 0
    ensures Normalize(negative, m * Pow10(z), e) == Number(negative, m, e + z)
    decreases z
  {
    if z > 0 {
      TenTimes(m, Pow10(z - 1));
      NormalizeScaled(negative, m, z - 1, e + 1);
    } else {
      assert m * Pow10(0) == m;
    }
  }

  /** The laid out digits and exponent name the number they came from. */
  lemma LayoutMeans(d: Number)
    requires Normal(d)
    ensures var l := LayoutOf(d);
            && l.whole != [] && AllDigits(l.whole) && AllDigits(l.fraction) && AllDigits(l.whole + l.fraction)
            && Normalize(d.negative, NatOf(l.whole + l.fraction), ExponentOf(l) - |l.fraction|) == d
  {
    hide Digits, NatOf;
    var digits := Digits(d.coefficient);
    var l := LayoutOf(d);
    var x := d.exponent + |digits| - 1;
    NatOfDigits(d.coefficient);
    if d.coefficient == 0 {
      ZeroText();
    } else if 0 <= x < 6 && d.exponent >= 0 {
      TrailingZeros(digits, d.exponent);
      assert l.whole + l.fraction == l.whole;
      NormalizeScaled(d.negative, d.coefficient, d.exponent, 0);
    } else if 0 <= x < 6 {
      assert l.whole + l.fraction == digits;
    } else if -4 <= x < 0 {
      assert l.whole + l.fraction == Zeros(-x) + digits;
      LeadingZeros(-x, digits);
    } else {
      assert l.whole + l.fraction == digits;
    }
  }

  lemma ZeroText()
    ensures NatOf([48] + []) == 0
  {
    assert [48] + [] == [48] && [48][..0] == [];
  }

  lemma TextStarts(l: Layout)
    requires l.whole != [] && AllDigits(l.whole)
    ensures Text(l) != [] && IsDigit(Text(l)[0])
  {
  }

  /** After any one leading space, `strtod` reads a printed number back to its end as the
      number rounded to six significant digits. */
  lemma {:induction false} Print6gReads(d: Number)
    requires Normal(d)
    ensures StrToD([SPACE] + Print6g(d)) == (Round6(d), 1 + |Print6g(d)|)
  {
    hide Digits, NatOf, Normalize, Unsigned, Text, LayoutOf, Round6, Shorten;
    var r := Round6(d);
    var text := Text(LayoutOf(r));
    LayoutMeans(r);
    LayoutReads(r.negative, LayoutOf(r));
    TextStarts(LayoutOf(r));
    var s := [SPACE] + Print6g(d);
    assert s[1..] == Print6g(d);
    assert LeadingSpaces(s[1..]) == 0;
    assert s[1 + SignLength(s[1..])..] == text;
  }

  lemma {:induction false} NormalizeKeepsSign(negative: bool, m: nat, e: int)
    ensures Normalize(negative, m, e).negative == negative
    decreases m
  {
    if m != 0 && m % 10 == 0 {
      NormalizeKeepsSign(negative, m / 10, e + 1);
    }
  }

  /** Six digits are enough exactly when there are no more than six. */
  lemma RoundIsExact(d: Number)
    requires Normal(d)
    ensures Round6(d) == d <==> d.coefficient < SIX_DIGITS
  {
  }

  /** `%u` after one space reads back through `strtoul`, up to the next character. */
  lemma UnsignedReads(n: Unsigned32, rest: Bytes)
    requires rest == [] || !IsDigit(rest[0])
    ensures StrToUL([SPACE] + Digits(n) + rest) == (n, 1 + |Digits(n)|)
  {
    hide Digits, NatOf, DigitRun;
    var s := [SPACE] + Digits(n) + rest;
    assert s[1..] == Digits(n) + rest;
    assert LeadingSpaces(s[1..]) == 0;
    DigitRunIs(Digits(n), rest);
    assert (Digits(n) + rest)[..|Digits(n)|] == Digits(n);
    NatOfDigits(n);
  }

  // ---- The one text for a number ----

  /** The weight of the first digit, as a power of ten; zero's is that of its only digit. */
  function FirstWeight(d: Number): int {
    if d.coefficient == 0 then 0 else d.exponent + |Digits(d.coefficient)| - 1
  }

  /** What C prescribes for `%.6g`: fixed style exactly when the first digit weighs 10^-4 to 10^5,
      with every digit in front of the point that the number has there and at least one, and no
      zero at the end of a fraction; else exponent style with one digit in front. */
  predicate CStyle(l: Layout, d: Number) {
    && AllDigits(l.whole) && AllDigits(l.fraction)
    && (l.exponent.None? <==> -4 <= FirstWeight(d) < 6)
    && (l.exponent.Some? ==> l.exponent.value == FirstWeight(d) && |l.whole| == 1)
    && (l.exponent.None? ==> |l.whole| == if FirstWeight(d) >= 0 then FirstWeight(d) + 1 else 1)
    && (l.fraction != [] ==> l.fraction[|l.fraction| - 1] != 48)
    && AllDigits(l.whole + l.fraction)
    && Normalize(d.negative, NatOf(l.whole + l.fraction), ExponentOf(l) - |l.fraction|) == d
  }

  lemma {:induction false} LastDigit(n: nat)
    ensures Digits(n)[|Digits(n)| - 1] == 48 + n % 10
  {
  }

  /** The layout is the one C prescribes. */
  lemma {:induction false} LayoutIsCStyle(d: Number)
    requires Normal(d)
    ensures CStyle(LayoutOf(d), d)
  {
    hide Digits, NatOf, Normalize;
    LayoutMeans(d);
    LastDigit(d.coefficient);
  }

  lemma {:induction false} NatOfLast(s: Bytes)
    requires AllDigits(s) && s != []
    ensures NatOf(s) % 10 == s[|s| - 1] - 48
  {
  }

  lemma {:induction false} SameDigits(a: Bytes, b: Bytes)
    requires AllDigits(a) && AllDigits(b) && |a| == |b| && NatOf(a) == NatOf(b)
    ensures a == b
    decreases |a|
  {
    if a != [] {
      NatOfLast(a);
      NatOfLast(b);
      SameDigits(a[..|a| - 1], b[..|b| - 1]);
      assert a == a[..|a| - 1] + [a[|a| - 1]] && b == b[..|b| - 1] + [b[|b| - 1]];
    }
  }

  lemma {:induction false} NormalizedAt(negative: bool, n: nat, e: int)
    requires n > 0
    ensures var d := Normalize(negative, n, e);
            d.exponent >= e && n == d.coefficient * Pow10(d.exponent - e)
    decreases n
  {
    hide Pow10;
    if n % 10 == 0 {
      NormalizedAt(negative, n / 10, e + 1);
      var d := Normalize(negative, n, e);
      OneMoreTen(d.coefficient, d.exponent - e - 1);
    } else {
      NoTens(n);
    }
  }

  lemma NoTens(c: nat)
    ensures c * Pow10(0) == c
  {
  }

  lemma OneMoreTen(c: nat, k: nat)
    ensures c * Pow10(k + 1) == 10 * (c * Pow10(k))
  {
    var p := Pow10(k);
    assert c * (10 * p) == 10 * (c * p);
  }

  /** A digit string with no zero at the end of its fraction has as many digits there as the
      number needs. */
  lemma {:induction false} FractionLength(l: Layout, d: Number)
    requires CStyle(l, d) && d.coefficient > 0
    ensures var e := d.exponent - ExponentOf(l);
            |l.fraction| == if e < 0 then -e else 0
    ensures var e := d.exponent - ExponentOf(l);
            NatOf(l.whole + l.fraction) == d.coefficient * Pow10(if e < 0 then 0 else e)
  {
    hide Digits, Normalize, Pow10, NatOf;
    var s := l.whole + l.fraction;
    var e := ExponentOf(l) - |l.fraction|;
    if NatOf(s) == 0 {
      ZeroNormalizes(d.negative, e);
      assert false;
    }
    NormalizedAt(d.negative, NatOf(s), e);
    if l.fraction != [] {
      NatOfLast(s);
      NotTenfold(NatOf(s), d.coefficient, d.exponent - e);
    }
  }

  lemma ZeroNormalizes(negative: bool, e: int)
    ensures Normalize(negative, 0, e).coefficient == 0
  {
  }

  lemma NotTenfold(n: nat, c: nat, k: nat)
    requires n == c * Pow10(k) && n % 10 != 0
    ensures k == 0
  {
    if k > 0 {
      TenTimes(c, Pow10(k - 1));
    }
  }

  /** No other layout is: so `%.6g` prints this text and no other. */
  lemma {:induction false} CStyleIsUnique(a: Layout, b: Layout, d: Number)
    requires Normal(d) && CStyle(a, d) && CStyle(b, d)
    ensures a == b
  {
    hide Digits, Normalize, NatOf, FirstWeight;
    if d.coefficient == 0 {
      ZeroLayout(a, d);
      ZeroLayout(b, d);
    } else {
      FractionLength(a, d);
      FractionLength(b, d);
      SameDigits(a.whole + a.fraction, b.whole + b.fraction);
      SplitEqual(a.whole, a.fraction, b.whole, b.fraction);
    }
  }

  lemma SplitEqual(a: Bytes, b: Bytes, c: Bytes, d: Bytes)
    requires a + b == c + d && |a| == |c|
    ensures a == c && b == d
  {
    assert (a + b)[..|a|] == a && (c + d)[..|c|] == c && (a + b)[|a|..] == b && (c + d)[|c|..] == d;
  }

  lemma {:induction false} ZeroLayout(l: Layout, d: Number)
    requires CStyle(l, d) && d.coefficient == 0
    ensures l == Layout([48], [], None)
  {
    var s := l.whole + l.fraction;
    if NatOf(s) > 0 {
      NormalizedAt(d.negative, NatOf(s), ExponentOf(l) - |l.fraction|);
      assert false;
    }
    if l.fraction != [] {
      NatOfLast(s);
    } else {
      assert s == l.whole;
      NatOfLast(s);
    }
  }

  /** The exponent has a sign and at least two digits, and spells its value. */
  lemma {:induction false} ExponentSpelled(x: int)
    ensures var s := ExponentText(x);
            var magnitude := if x < 0 then -x else x;
            && |s| >= 4 && (|s| > 4 ==> s[2] != 48)
            && s[0] == LOWER_E && s[1] == (if x < 0 then MINUS else PLUS)
            && AllDigits(s[2..]) && NatOf(s[2..]) == magnitude
  {
    hide Digits, NatOf;
    var magnitude := if x < 0 then -x else x;
    var digits := (if magnitude < 10 then [48] else []) + Digits(magnitude);
    assert ExponentText(x)[2..] == digits;
    NatOfDigits(magnitude);
    DigitsShape(magnitude);
    if magnitude < 10 {
      assert digits == Zeros(1) + Digits(magnitude);
      LeadingZeros(1, Digits(magnitude));
    } else {
      assert digits == Digits(magnitude);
    }
  }

  lemma {:induction false} DigitsShape(n: nat)
    ensures n < 10 ==> |Digits(n)| == 1
    ensures n >= 10 ==> |Digits(n)| >= 2 && Digits(n)[0] != 48
  {
    if n >= 10 {
      DigitsShape(n / 10);
    }
  }

  // ---- Rounding ----

  /** The rounded quotient is nearest, and even when two are equally near. */
  lemma {:induction false} QuotientIsNearest(n: nat, unit: nat)
    requires unit > 0
    ensures var q := RoundedQuotient(n, unit);
            && 0 - unit <= 2 * (q * unit - n) <= unit
            && (2 * (q * unit - n) == unit || 2 * (n - q * unit) == unit ==> q % 2 == 0)
  {
    var q, r := n / unit, n % unit;
    assert n == q * unit + r;
    assert (q + 1) * unit == q * unit + unit;
  }

  // ---- Every text the readers accept ----

  /** Space, tab, line feed, vertical tab, form feed or carriage return. */
  predicate Blank(b: byte) {
    b in {32, 9, 10, 11, 12, 13}
  }

  predicate AllSpaces(s: Bytes) {
    forall i :: 0 <= i < |s| ==> Blank(s[i])
  }

  /** Nothing, a plus or a minus. */
  predicate SignOrNot(s: Bytes) {
    s == [] || s == [43] || s == [45]
  }

  predicate NotDigitNext(rest: Bytes) {
    rest == [] || !IsDigit(rest[0])
  }

  lemma {:induction false} SpacesSkipped(spaces: Bytes, rest: Bytes)
    requires AllSpaces(spaces) && (rest == [] || !Blank(rest[0]))
    ensures LeadingSpaces(spaces + rest) == |spaces|
    decreases |spaces|
  {
    if spaces == [] {
      assert spaces + rest == rest;
    } else {
      assert (spaces + rest)[1..] == spaces[1..] + rest;
      SpacesSkipped(spaces[1..], rest);
    }
  }

  lemma SignSkipped(sign: Bytes, rest: Bytes)
    requires SignOrNot(sign) && (rest == [] || (rest[0] != 43 && rest[0] != 45))
    ensures SignLength(sign + rest) == |sign| && (Negative(sign + rest) <==> sign == [45])
    ensures (sign + rest)[|sign|..] == rest
  {
    if sign == [] {
      assert sign + rest == rest;
    }
  }

  /** Spaces and a sign in front of a body that starts with neither. */
  lemma {:induction false} FrontSkipped(spaces: Bytes, sign: Bytes, body: Bytes)
    requires AllSpaces(spaces) && SignOrNot(sign)
    requires body == [] || (!Blank(body[0]) && body[0] != 43 && body[0] != 45)
    ensures var s := spaces + (sign + body);
            && LeadingSpaces(s) == |spaces| && s[|spaces|..] == sign + body
            && SignLength(sign + body) == |sign| && (Negative(sign + body) <==> sign == [45])
            && s[|spaces| + |sign|..] == body
  {
    SignSkipped(sign, body);
    if sign == [] {
      assert sign + body == body;
    }
    SpacesSkipped(spaces, sign + body);
    Parts(spaces, sign, body);
  }

  /** `strtoul` reads any spaces, sign and digits: the number, saturated, or negated modulo 2^64. */
  lemma {:induction false} StrToULReads(spaces: Bytes, sign: Bytes, digits: Bytes, rest: Bytes)
    requires AllSpaces(spaces) && SignOrNot(sign) && digits != [] && AllDigits(digits) && NotDigitNext(rest)
    ensures var n := NatOf(digits);
            StrToUL(spaces + (sign + (digits + rest))) ==
            (if n >= 0x1_0000_0000_0000_0000 then 0xFFFF_FFFF_FFFF_FFFF
             else if sign == [45] && n > 0 then 0x1_0000_0000_0000_0000 - n
             else n,
             |spaces| + |sign| + |digits|)
  {
    hide LeadingSpaces, SignLength, Negative, DigitRun, NatOf, AllSpaces, SignOrNot, AllDigits;
    var body := digits + rest;
    DigitFirst(digits, rest);
    FrontSkipped(spaces, sign, body);
    DigitRunIs(digits, rest);
    assert body[..|digits|] == digits;
  }

  lemma DigitFirst(digits: Bytes, rest: Bytes)
    requires digits != [] && AllDigits(digits)
    ensures var body := digits + rest;
            body != [] && !Blank(body[0]) && body[0] != 43 && body[0] != 45
  {
    assert (digits + rest)[0] == digits[0];
  }

  /** Without a digit it reads nothing. */
  lemma {:induction false} StrToULNothing(spaces: Bytes, sign: Bytes, rest: Bytes)
    requires AllSpaces(spaces) && SignOrNot(sign) && NotDigitNext(rest)
    requires rest == [] || (!Blank(rest[0]) && rest[0] != 43 && rest[0] != 45)
    ensures StrToUL(spaces + (sign + rest)) == (0, 0)
  {
    hide LeadingSpaces, SignLength, Negative;
    FrontSkipped(spaces, sign, rest);
  }

  /** A decimal with an optional point, fraction and exponent. */
  datatype Spelling = Spelling(
    whole: Bytes,
    point: bool,
    fraction: Bytes,
    exponent: Option<(Bytes, Bytes)>)

  predicate Spelled(n: Spelling) {
    && AllDigits(n.whole) && AllDigits(n.fraction) && (n.fraction != [] ==> n.point)
    && n.whole + n.fraction != []
    && (n.exponent.Some? ==> SignOrNot(n.exponent.value.0) && n.exponent.value.1 != [] && AllDigits(n.exponent.value.1))
  }

  function PointText(n: Spelling): Bytes {
    if n.point then [46] + n.fraction else []
  }

  /** With `e` or `E`. */
  function TailText(n: Spelling, upper: bool): Bytes {
    if n.exponent.Some? then [if upper then 69 else 101] + (n.exponent.value.0 + n.exponent.value.1) else []
  }

  function TailValue(n: Spelling): int
    requires Spelled(n)
  {
    if n.exponent.None? then 0
    else
      var magnitude: int := NatOf(n.exponent.value.1);
      if n.exponent.value.0 == [45] then -magnitude else magnitude
  }

  /** What follows does not continue the number. */
  predicate NumberEnds(rest: Bytes) {
    rest == [] || !(IsDigit(rest[0]) || rest[0] in {46, 69, 101})
  }

  lemma {:induction false} SignedTail(marker: byte, sign: Bytes, digits: Bytes, rest: Bytes)
    requires marker in {69, 101} && SignOrNot(sign) && digits != [] && AllDigits(digits) && NotDigitNext(rest)
    ensures var magnitude: int := NatOf(digits);
            ExponentPart([marker] + (sign + (digits + rest))) ==
            (if sign == [45] then -magnitude else magnitude, 1 + |sign| + |digits|)
  {
    hide DigitRun, NatOf, SignLength, Negative, SignOrNot, AllDigits, NotDigitNext;
    var body := digits + rest;
    var s := [marker] + (sign + body);
    DigitFirst(digits, rest);
    SignSkipped(sign, body);
    assert s[1..] == sign + body;
    assert s[1 + |sign|..] == body;
    DigitsThenRest(digits, rest);
  }

  lemma {:induction false} DigitsThenRest(digits: Bytes, rest: Bytes)
    requires AllDigits(digits) && NotDigitNext(rest)
    ensures DigitRun(digits + rest) == |digits| && (digits + rest)[..|digits|] == digits
  {
    DigitRunIs(digits, rest);
  }

  lemma {:induction false} TailReads(n: Spelling, upper: bool, rest: Bytes)
    requires Spelled(n) && NumberEnds(rest)
    ensures ExponentPart(TailText(n, upper) + rest) == (TailValue(n), |TailText(n, upper)|)
    ensures var s := TailText(n, upper) + rest;
            s == [] || !(IsDigit(s[0]) || s[0] == 46)
  {
    hide NatOf, ExponentPart, AllDigits, SignOrNot;
    if n.exponent.Some? {
      var (sign, digits) := n.exponent.value;
      var marker: byte := if upper then 69 else 101;
      EndsHaveNoDigit(rest);
      SignedTail(marker, sign, digits, rest);
      Regroup3([marker], sign + digits, rest);
      Regroup3(sign, digits, rest);
    } else {
      NoTail(rest);
      assert TailText(n, upper) + rest == rest;
    }
  }

  lemma EndsHaveNoDigit(rest: Bytes)
    requires NumberEnds(rest)
    ensures NotDigitNext(rest)
  {
  }

  lemma NoTail(rest: Bytes)
    requires NumberEnds(rest)
    ensures ExponentPart(rest) == (0, 0)
  {
  }

  lemma {:induction false} PointReads(n: Spelling, tail: Bytes)
    requires Spelled(n) && (tail == [] || !(IsDigit(tail[0]) || tail[0] == 46))
    ensures FractionPart(PointText(n) + tail) == (n.fraction, |PointText(n)|)
    ensures PointText(n) + tail == [] || !IsDigit((PointText(n) + tail)[0])
  {
    hide DigitRun;
    if n.point {
      var s := PointText(n) + tail;
      assert s[1..] == n.fraction + tail;
      DigitRunIs(n.fraction, tail);
      assert (n.fraction + tail)[..|n.fraction|] == n.fraction;
    } else {
      assert PointText(n) + tail == tail;
    }
  }

  function SpellingText(n: Spelling, upper: bool): Bytes {
    n.whole + (PointText(n) + TailText(n, upper))
  }

  function SpellingValue(negative: bool, n: Spelling): Number
    requires Spelled(n)
  {
    assert AllDigits(n.whole + n.fraction);
    Normalize(negative, NatOf(n.whole + n.fraction), TailValue(n) - |n.fraction|)
  }

  lemma {:induction false} SpellingReads(negative: bool, n: Spelling, upper: bool, rest: Bytes)
    requires Spelled(n) && NumberEnds(rest)
    ensures Unsigned(negative, SpellingText(n, upper) + rest) ==
            (SpellingValue(negative, n), |SpellingText(n, upper)|)
  {
    hide DigitRun, NatOf, Normalize, FractionPart, ExponentPart, PointText, TailText, TailValue;
    var tail, point := TailText(n, upper), PointText(n);
    Regroup4(n.whole, point, tail, rest);
    Regroup3(n.whole, point + tail, rest);
    Regroup3(point, tail, rest);
    TailReads(n, upper, rest);
    PointReads(n, tail + rest);
    DigitRunIs(n.whole, point + (tail + rest));
    Parts(n.whole, point, tail + rest);
  }

  /** `strtod` reads any spaces, sign and decimal, up to what does not continue it, as the number
      it spells. */
  lemma {:induction false} StrToDReads(spaces: Bytes, sign: Bytes, n: Spelling, upper: bool, rest: Bytes)
    requires AllSpaces(spaces) && SignOrNot(sign) && Spelled(n) && NumberEnds(rest)
    ensures StrToD(spaces + (sign + (SpellingText(n, upper) + rest))) ==
            (SpellingValue(sign == [45], n), |spaces| + |sign| + |SpellingText(n, upper)|)
  {
    hide LeadingSpaces, SignLength, Negative, Unsigned, SpellingText, SpellingValue, Spelled, AllSpaces, SignOrNot,
         Blank, NumberEnds;
    var body := SpellingText(n, upper) + rest;
    SpellingReads(sign == [45], n, upper, rest);
    BodyStarts(n, upper, rest);
    FrontSkipped(spaces, sign, body);
  }

  lemma {:induction false} BodyStarts(n: Spelling, upper: bool, rest: Bytes)
    requires Spelled(n)
    ensures var text := SpellingText(n, upper);
            var body := text + rest;
            && text != [] && body != [] && (IsDigit(body[0]) || body[0] == 46) && body[0] == text[0]
            && !Blank(body[0]) && body[0] != 43 && body[0] != 45
  {
    var text := SpellingText(n, upper);
    if n.whole == [] {
      assert text[0] == 46;
    } else {
      assert text[0] == n.whole[0];
    }
    assert (text + rest)[0] == text[0];
  }

  /** Spaces alone are no number. */
  lemma {:induction false} StrToDNothing(spaces: Bytes)
    requires AllSpaces(spaces)
    ensures StrToD(spaces).1 == 0
  {
    assert spaces + [] == spaces;
    SpacesSkipped(spaces, []);
    assert spaces[|spaces|..] == [];
  }
}
