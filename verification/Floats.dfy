/** From decimal text to a 32-bit float: `strtod` gives the nearest double, the cast the nearest
    float, and each float is a decimal number again. Six decimal digits survive the way there
    and back, because a float has 24 bits and 10^6 is below 2^23. */
module Floats {
  import opened Octets
  import opened Decimal

  // ---- Conversion ----

  function Pow2(n: nat): (r: nat)
    ensures r >= 1
  {
    if n == 0 then 1 else 2 * Pow2(n - 1)
  }

  function Pow5(n: nat): (r: nat)
    ensures r >= 1
  {
    if n == 0 then 1 else 5 * Pow5(n - 1)
  }

  /** A positive rational `p / q`. */
  datatype Fraction = Fraction(p: nat, q: nat)

  predicate Positive(f: Fraction) {
    f.p > 0 && f.q > 0
  }

  /** `significand * 2^exponent` */
  datatype Binary = Binary(significand: nat, exponent: int)

  /** The same rational as `r.0 * 2^r.1`, with `r.0` from 1 up to 2. */
  function Scaled(f: Fraction): (r: (Fraction, int))
    requires Positive(f)
    ensures Positive(r.0) && r.0.q <= r.0.p < 2 * r.0.q
    decreases if f.p < f.q then f.q - f.p else if f.p >= 2 * f.q then f.p - 2 * f.q + 1 else 0
  {
    if f.p < f.q then
      var (g, e) := Scaled(Fraction(2 * f.p, f.q));
      (g, e - 1)
    else if f.p >= 2 * f.q then
      var (g, e) := Scaled(Fraction(f.p, 2 * f.q));
      (g, e + 1)
    else (f, 0)
  }

  /** The nearest number with `bits` bits after the first one, halves to even. */
  function Nearest(f: Fraction, bits: nat): (b: Binary)
    requires Positive(f)
    ensures b.significand > 0
  {
    var (g, e) := Scaled(f);
    var low := Pow2(bits);
    QuotientPositive(g.p, g.q, low);
    Binary(RoundedQuotient(low * g.p, g.q), e - bits)
  }

  lemma QuotientPositive(p: nat, q: nat, low: nat)
    requires 0 < q <= p && low > 0
    ensures RoundedQuotient(low * p, q) > 0
  {
    assert low * p >= p;
    var n := low * p;
    assert n / q >= 1;
  }

  function OfBinary(b: Binary): (f: Fraction)
    requires b.significand > 0
    ensures Positive(f)
  {
    if b.exponent >= 0 then Fraction(b.significand * Pow2(b.exponent), 1)
    else Fraction(b.significand, Pow2(-b.exponent))
  }

  function OfDecimal(d: Number): (f: Fraction)
    requires d.coefficient > 0
    ensures Positive(f)
  {
    if d.exponent >= 0 then Fraction(d.coefficient * Pow10(d.exponent), 1)
    else Fraction(d.coefficient, Pow10(-d.exponent))
  }

  /** All the decimal digits of a binary number. */
  function Expansion(negative: bool, b: Binary): (d: Number)
    ensures Normal(d)
  {
    if b.exponent >= 0 then Normalize(negative, b.significand * Pow2(b.exponent), 0)
    else Normalize(negative, b.significand * Pow5(-b.exponent), b.exponent)
  }

  /** The bits of a significand after the first one. */
  const DOUBLE_BITS := 52
  const SINGLE_BITS := 23

  /** `(float)strtod(...)` of a decimal in the normal range. */
  function Single(d: Number): (r: Number)
    requires Normal(d)
    ensures Normal(r)
  {
    if d.coefficient == 0 then d
    else Expansion(d.negative, Nearest(OfBinary(Nearest(OfDecimal(d), DOUBLE_BITS)), SINGLE_BITS))
  }

  // ---- As real numbers ----

  function Two(k: int): (r: real)
    ensures r > 0.0
    decreases if k < 0 then -k else k
  {
    if k == 0 then 1.0 else if k > 0 then 2.0 * Two(k - 1) else Two(k + 1) / 2.0
  }

  function Ten(k: int): (r: real)
    ensures r > 0.0
    decreases if k < 0 then -k else k
  {
    if k == 0 then 1.0 else if k > 0 then 10.0 * Ten(k - 1) else Ten(k + 1) / 10.0
  }

  function Ratio(f: Fraction): real
    requires f.q > 0
  {
    f.p as real / f.q as real
  }

  function BinaryValue(b: Binary): real {
    b.significand as real * Two(b.exponent)
  }

  /** The magnitude of a decimal number. */
  function DecimalValue(d: Number): real {
    d.coefficient as real * Ten(d.exponent)
  }

  lemma TwoNext(k: int)
    ensures Two(k + 1) == 2.0 * Two(k)
  {
  }

  lemma TenNext(k: int)
    ensures Ten(k + 1) == 10.0 * Ten(k)
  {
  }

  lemma {:induction false} TwoIsPow(n: nat)
    ensures Two(n) == Pow2(n) as real
    ensures Two(0 - n) * Pow2(n) as real == 1.0
    decreases n
  {
    if n > 0 {
      TwoIsPow(n - 1);
    }
  }

  lemma {:induction false} TenIsPow(n: nat)
    ensures Ten(n) == Pow10(n) as real
    ensures Ten(0 - n) * Pow10(n) as real == 1.0
    decreases n
  {
    if n > 0 {
      TenIsPow(n - 1);
    }
  }

  lemma {:induction false} FiveTwoTen(n: nat)
    ensures Ten(0 - n) * Pow5(n) as real == Two(0 - n)
    decreases n
  {
    if n > 0 {
      FiveTwoTen(n - 1);
      var t, p := Ten(1 - n), Pow5(n - 1) as real;
      assert (t / 10.0) * (5.0 * p) == t * p / 2.0;
    }
  }

  lemma {:induction false} TenSplits(x: int, n: nat)
    ensures Ten(x + n) == Pow10(n) as real * Ten(x)
    decreases n
  {
    hide Ten;
    if n > 0 {
      TenSplits(x, n - 1);
      TenNext(x + n - 1);
    }
  }

  // ---- Products of reals ----

  lemma MulLe(a: real, b: real, w: real)
    requires a <= b && w >= 0.0
    ensures a * w <= b * w
  {
    assert (b - a) * w >= 0.0;
  }

  lemma CancelLe(a: real, b: real, w: real)
    requires a * w <= b * w && w > 0.0
    ensures a <= b
  {
    assert a > b ==> (a - b) * w > 0.0;
  }

  lemma Shuffle(a: real, b: real, c: real)
    ensures (a * b) * c == a * (b * c) && a * b == b * a
  {
  }

  lemma RatioIs(f: Fraction)
    requires Positive(f)
    ensures Ratio(f) * f.q as real == f.p as real
  {
  }

  // ---- How far a conversion moves a number ----

  /** `y` is within one part in `k` of `x`. */
  predicate Within(y: real, x: real, k: real) {
    -x <= (y - x) * k <= x
  }

  lemma RatioDoubles(f: Fraction)
    requires Positive(f)
    ensures Ratio(Fraction(2 * f.p, f.q)) == 2.0 * Ratio(f)
    ensures 2.0 * Ratio(Fraction(f.p, 2 * f.q)) == Ratio(f)
  {
    assert (2 * f.p) as real == 2.0 * f.p as real && (2 * f.q) as real == 2.0 * f.q as real;
  }

  lemma {:induction false} ScaledIs(f: Fraction)
    requires Positive(f)
    ensures Ratio(f) == Ratio(Scaled(f).0) * Two(Scaled(f).1)
    decreases if f.p < f.q then f.q - f.p else if f.p >= 2 * f.q then f.p - 2 * f.q + 1 else 0
  {
    hide Ratio, Two;
    RatioDoubles(f);
    if f.p < f.q {
      var up := Fraction(2 * f.p, f.q);
      var e := Scaled(up).1;
      ScaledIs(up);
      TwoNext(e - 1);
      Shuffle(Ratio(Scaled(up).0), 2.0, Two(e - 1));
    } else if f.p >= 2 * f.q {
      var down := Fraction(f.p, 2 * f.q);
      var e := Scaled(down).1;
      ScaledIs(down);
      TwoNext(e);
      Shuffle(Ratio(Scaled(down).0), 2.0, Two(e));
    } else {
      TwoOfZero();
    }
  }

  lemma TwoOfZero()
    ensures Two(0) == 1.0
  {
  }

  /** `m` times the unit is within half a unit of `n`. */
  predicate HalfOff(m: nat, n: nat, unit: nat) {
    0 - unit <= 2 * (m * unit - n) <= unit
  }

  lemma QuotientWithin(n: nat, unit: nat)
    requires unit > 0
    ensures HalfOff(RoundedQuotient(n, unit), n, unit)
  {
    QuotientIsNearest(n, unit);
  }

  lemma {:induction false} TwoSplits(k: int, n: nat)
    ensures Two(k) == Pow2(n) as real * Two(k - n)
    decreases n
  {
    hide Two;
    if n > 0 {
      TwoSplits(k, n - 1);
      TwoNext(k - n);
      Shuffle(Pow2(n - 1) as real, 2.0, Two(k - n));
    }
  }

  lemma Distribute(m: real, z: real, q: real)
    ensures (2.0 * (m - z)) * q == 2.0 * (m * q - z * q)
  {
  }

  lemma HalfUnit(m: real, z: real, q: real, n: real)
    requires q > 0.0 && z * q == n && -q <= 2.0 * (m * q - n) <= q
    ensures -1.0 <= 2.0 * (m - z) <= 1.0
  {
    var a := 2.0 * (m - z);
    Distribute(m, z, q);
    assert a * q == 2.0 * (m * q - n);
    assert a * q <= 1.0 * q && (-1.0) * q <= a * q;
    CancelLe(a, 1.0, q);
    CancelLe(-1.0, a, q);
  }

  lemma ScaleError(m: real, y: real, w: real, low: real, v: real, x: real)
    requires w > 0.0 && low > 0.0 && y >= low && -1.0 <= 2.0 * (m - y) <= 1.0
    requires v == m * w && x == y * w
    ensures Within(v, x, 2.0 * low)
  {
    hide Within;
    var e, u := 2.0 * (m - y), w * low;
    MulLe(low, y, w);
    assert u <= y * w;
    BoundedProduct(e, u);
    ErrorIs(m, y, w, low);
    WithinIs(v, x, 2.0 * low, e * u, u);
  }

  lemma WithinIs(y: real, x: real, k: real, error: real, bound: real)
    requires (y - x) * k == error && -bound <= error <= bound <= x
    ensures Within(y, x, k)
  {
  }

  lemma BoundedProduct(e: real, u: real)
    requires -1.0 <= e <= 1.0 && u >= 0.0
    ensures -u <= e * u <= u
  {
    MulLe(e, 1.0, u);
    MulLe(-1.0, e, u);
  }

  lemma ErrorIs(m: real, y: real, w: real, low: real)
    ensures (m * w - y * w) * (2.0 * low) == (2.0 * (m - y)) * (w * low)
  {
    var d := m - y;
    assert m * w - y * w == d * w;
    assert (d * w) * (2.0 * low) == (2.0 * d) * (w * low);
  }

  lemma HalfOffReal(m: nat, n: nat, q: nat)
    requires HalfOff(m, n, q)
    ensures -(q as real) <= 2.0 * (m as real * q as real - n as real) <= q as real
  {
    var k := m * q;
    CastProduct(m, q);
    assert (2 * (k - n)) as real == 2.0 * (k as real - n as real);
  }

  lemma CastProduct(a: int, b: int)
    ensures (a * b) as real == a as real * b as real
  {
  }

  lemma SignificandNear(m: nat, low: nat, g: Fraction, y: real)
    requires Positive(g) && g.q <= g.p && low > 0 && HalfOff(m, low * g.p, g.q) && y == low as real * Ratio(g)
    ensures y >= low as real
    ensures -1.0 <= 2.0 * (m as real - y) <= 1.0
  {
    hide Ratio, HalfOff;
    RatioIs(g);
    HalfOffReal(m, low * g.p, g.q);
    CastProduct(low, g.p);
    Near(m as real, low as real, Ratio(g), g.p as real, g.q as real, (low * g.p) as real, y);
  }

  lemma Near(m: real, low: real, z: real, p: real, q: real, n: real, y: real)
    requires 0.0 < q <= p && low > 0.0 && z * q == p && n == low * p && y == low * z
    requires -q <= 2.0 * (m * q - n) <= q
    ensures y >= low
    ensures -1.0 <= 2.0 * (m - y) <= 1.0
  {
    CancelLe(1.0, z, q);
    MulLe(1.0, z, low);
    SameScale(low, z, p, q, y);
    HalfUnit(m, y, q, n);
  }

  lemma SameScale(low: real, z: real, p: real, q: real, y: real)
    requires z * q == p && y == low * z
    ensures y * q == low * p
  {
    Shuffle(low, z, q);
  }

  lemma Regroup(x: real, z: real, t: real, l: real, w: real)
    requires x == z * t && t == l * w
    ensures x == (l * z) * w
  {
    Shuffle(z, l, w);
  }

  lemma FromScaled(m: nat, low: nat, g: Fraction, y: real, w: real, v: real, x: real)
    requires Positive(g) && g.q <= g.p && low > 0 && HalfOff(m, low * g.p, g.q) && y == low as real * Ratio(g)
    requires w > 0.0 && v == m as real * w && x == y * w
    ensures Within(v, x, 2.0 * low as real)
  {
    hide Ratio, Within, HalfOff;
    SignificandNear(m, low, g, y);
    ScaleError(m as real, y, w, low as real, v, x);
  }

  /** The nearest number with `bits` bits after the first is within one part in `2^(bits + 1)`. */
  lemma {:induction false} NearestWithin(f: Fraction, bits: nat)
    requires Positive(f)
    ensures Within(BinaryValue(Nearest(f, bits)), Ratio(f), 2.0 * Pow2(bits) as real)
  {
    hide Scaled, Two, RoundedQuotient, Within, Pow2, Ratio;
    var (g, e) := Scaled(f);
    var low := Pow2(bits);
    var m, w := RoundedQuotient(low * g.p, g.q), Two(e - bits);
    ScaledIs(f);
    TwoSplits(e, bits);
    QuotientWithin(low * g.p, g.q);
    Regroup(Ratio(f), Ratio(g), Two(e), low as real, w);
    FromScaled(m, low, g, low as real * Ratio(g), w, BinaryValue(Nearest(f, bits)), Ratio(f));
  }

  // ---- What each form is worth ----

  lemma {:induction false} NormalizeWorth(negative: bool, m: nat, e: int)
    ensures DecimalValue(Normalize(negative, m, e)) == m as real * Ten(e)
    ensures m > 0 ==> Normalize(negative, m, e).coefficient > 0
    decreases m
  {
    hide Ten, DecimalValue;
    if m == 0 {
      ZeroWorth(negative, e);
    } else if m % 10 != 0 {
      WorthIs(negative, m, e);
    } else {
      NormalizeWorth(negative, m / 10, e + 1);
      TenthWorth(m / 10, e);
    }
  }

  lemma ZeroWorth(negative: bool, e: int)
    ensures DecimalValue(Number(negative, 0, 0)) == 0 as real * Ten(e)
  {
    hide Ten;
  }

  lemma WorthIs(negative: bool, m: nat, e: int)
    ensures DecimalValue(Number(negative, m, e)) == m as real * Ten(e)
  {
    hide Ten;
  }

  lemma TenthWorth(m: nat, e: int)
    ensures m as real * Ten(e + 1) == (10 * m) as real * Ten(e)
  {
    hide Ten;
    TenNext(e);
    assert (10 * m) as real == 10.0 * m as real;
    Shuffle(m as real, 10.0, Ten(e));
  }

  lemma DecimalWorth(d: Number)
    requires d.coefficient > 0
    ensures Ratio(OfDecimal(d)) == DecimalValue(d)
  {
    hide Ten, Ratio, Pow10;
    var f := OfDecimal(d);
    RatioIs(f);
    if d.exponent >= 0 {
      TenIsPow(d.exponent);
      CastProduct(d.coefficient, Pow10(d.exponent));
    } else {
      TenIsPow(-d.exponent);
      Inverse(Ratio(f), f.q as real, f.p as real, Ten(d.exponent));
    }
  }

  lemma Inverse(x: real, q: real, p: real, t: real)
    requires x * q == p && t * q == 1.0
    ensures x == p * t
  {
    assert (x * q) * t == x * (t * q);
  }

  lemma BinaryWorth(b: Binary)
    requires b.significand > 0
    ensures Ratio(OfBinary(b)) == BinaryValue(b)
  {
    hide Two, Ratio, Pow2;
    var f := OfBinary(b);
    RatioIs(f);
    if b.exponent >= 0 {
      TwoIsPow(b.exponent);
      CastProduct(b.significand, Pow2(b.exponent));
    } else {
      TwoIsPow(-b.exponent);
      Inverse(Ratio(f), f.q as real, f.p as real, Two(b.exponent));
    }
  }

  lemma ExpansionWorth(negative: bool, b: Binary)
    ensures DecimalValue(Expansion(negative, b)) == BinaryValue(b)
    ensures b.significand > 0 ==> Expansion(negative, b).coefficient > 0
    ensures Expansion(negative, b).negative == negative
  {
    hide Two, Ten, Pow2, Pow5, DecimalValue, Normalize;
    if b.exponent >= 0 {
      var m := b.significand * Pow2(b.exponent);
      NormalizeKeepsSign(negative, m, 0);
      NormalizeWorth(negative, m, 0);
      TenOfZero();
      TwoIsPow(b.exponent);
      CastProduct(b.significand, Pow2(b.exponent));
    } else {
      var m := b.significand * Pow5(-b.exponent);
      NormalizeKeepsSign(negative, m, b.exponent);
      NormalizeWorth(negative, m, b.exponent);
      FiveTwoTen(-b.exponent);
      CastProduct(b.significand, Pow5(-b.exponent));
      Shuffle(b.significand as real, Pow5(-b.exponent) as real, Ten(b.exponent));
    }
  }

  lemma TenOfZero()
    ensures Ten(0) == 1.0
  {
  }

  // ---- Six digits survive ----

  lemma {:induction false} Pow2Grows(a: nat, b: nat)
    requires a <= b
    ensures Pow2(a) <= Pow2(b)
    decreases b
  {
    if a < b {
      Pow2Grows(a, b - 1);
    }
  }

  lemma TwoSteps(x: real, y: real, z: real, k: real)
    requires x > 0.0 && k >= 67108864.0 && Within(y, x, k) && Within(z, y, 16777216.0)
    ensures Within(z, x, 8388608.0)
  {
    LooserWithin(y, x, k, 67108864.0);
  }

  lemma LooserWithin(y: real, x: real, k: real, k': real)
    requires Within(y, x, k) && 0.0 < k' <= k && x > 0.0
    ensures Within(y, x, k')
  {
    if y >= x {
      MulLe(k', k, y - x);
    } else {
      MulLe(k', k, x - y);
    }
  }

  /** A float is within one part in 2^23 of the decimal it was read from. */
  lemma {:induction false} SingleWithin(d: Number)
    requires Normal(d) && d.coefficient > 0
    ensures Within(DecimalValue(Single(d)), DecimalValue(d), 8388608.0)
    ensures Single(d).coefficient > 0 && Single(d).negative == d.negative
  {
    hide Nearest, OfDecimal, OfBinary, Expansion, Ratio, BinaryValue, DecimalValue, Within, Pow2;
    var f := OfDecimal(d);
    var double := Nearest(f, DOUBLE_BITS);
    var single := Nearest(OfBinary(double), SINGLE_BITS);
    DecimalWorth(d);
    BinaryWorth(double);
    ExpansionWorth(d.negative, single);
    NearestWithin(f, DOUBLE_BITS);
    NearestWithin(OfBinary(double), SINGLE_BITS);
    SingleBits();
    PositiveWorth(d);
    TwoSteps(DecimalValue(d), BinaryValue(double), BinaryValue(single), 2.0 * Pow2(DOUBLE_BITS) as real);
  }

  lemma SingleBits()
    ensures Pow2(SINGLE_BITS) == 8388608 && Pow2(DOUBLE_BITS) >= 33554432
  {
    assert Pow2(3) == 8 && Pow2(6) == 64 && Pow2(9) == 512 && Pow2(12) == 4096 && Pow2(15) == 32768;
    assert Pow2(18) == 262144 && Pow2(21) == 2097152 && Pow2(23) == 8388608 && Pow2(25) == 33554432;
    Pow2Grows(25, 52);
  }

  lemma PositiveWorth(d: Number)
    ensures d.coefficient > 0 ==> DecimalValue(d) > 0.0
  {
  }

  lemma {:induction false} DigitsAtLeast(n: nat)
    requires n > 0
    ensures Pow10(|Digits(n)| - 1) <= n
  {
    if n >= 10 {
      DigitsAtLeast(n / 10);
    }
  }

  /** What `Within` one part in 2^23 says of coefficients at a common exponent. */
  predicate Close(n: nat, t: nat) {
    0 - t <= (n - t) * 8388608 <= t
  }

  lemma ScaledClose(n: nat, t: nat, w: real, y: real, x: real)
    requires w > 0.0 && y == n as real * w && x == t as real * w && Within(y, x, 8388608.0)
    ensures Close(n, t)
  {
    var e := (n as real - t as real) * 8388608.0;
    assert (y - x) * 8388608.0 == e * w;
    CancelLe(e, t as real, w);
    assert -x == (-(t as real)) * w;
    CancelLe(-(t as real), e, w);
    assert ((n - t) * 8388608) as real == e;
  }

  /** At the smaller of the two exponents. */
  lemma {:induction false} CloseDecimals(n: Number, d: Number)
    requires Within(DecimalValue(n), DecimalValue(d), 8388608.0)
    ensures n.exponent <= d.exponent ==> Close(n.coefficient, d.coefficient * Pow10(d.exponent - n.exponent))
    ensures n.exponent >= d.exponent ==> Close(n.coefficient * Pow10(n.exponent - d.exponent), d.coefficient)
  {
    hide Ten, Within, Pow10, Close;
    if n.exponent <= d.exponent {
      var k := d.exponent - n.exponent;
      CommonExponent(d, n.exponent);
      ScaledClose(n.coefficient, d.coefficient * Pow10(k), Ten(n.exponent), DecimalValue(n), DecimalValue(d));
    }
    if n.exponent >= d.exponent {
      var k := n.exponent - d.exponent;
      CommonExponent(n, d.exponent);
      ScaledClose(n.coefficient * Pow10(k), d.coefficient, Ten(d.exponent), DecimalValue(n), DecimalValue(d));
    }
  }

  lemma CommonExponent(d: Number, x: int)
    requires x <= d.exponent
    ensures DecimalValue(d) == (d.coefficient * Pow10(d.exponent - x)) as real * Ten(x)
  {
    hide Ten, Pow10;
    var k := d.exponent - x;
    TenSplits(x, k);
    CastProduct(d.coefficient, Pow10(k));
    Shuffle(d.coefficient as real, Pow10(k) as real, Ten(x));
  }

  /** A decimal of at most six digits cannot have a finer last digit than a close number. */
  lemma NotFiner(n: Number, d: Number)
    requires Normal(n) && Normal(d) && n.coefficient > 0 && 0 < d.coefficient < SIX_DIGITS
    requires n.exponent > d.exponent
    ensures !Close(n.coefficient * Pow10(n.exponent - d.exponent), d.coefficient)
  {
    var k := n.exponent - d.exponent;
    TenTimes(n.coefficient, Pow10(k - 1));
  }

  /** With at most six digits, close is equal. */
  lemma ShortIsEqual(n: Number, d: Number)
    requires Normal(n) && Normal(d) && 0 < n.coefficient < SIX_DIGITS && 0 < d.coefficient < SIX_DIGITS
    requires n.negative == d.negative && n.exponent <= d.exponent
    requires Close(n.coefficient, d.coefficient * Pow10(d.exponent - n.exponent))
    ensures n == d
  {
    var k := d.exponent - n.exponent;
    var t := d.coefficient * Pow10(k);
    assert n.coefficient == t;
    if k > 0 {
      TenTimes(d.coefficient, Pow10(k - 1));
    }
  }

  lemma NoMultipleBetween(m: int, unit: nat)
    requires 0 - unit < m * unit < unit
    ensures m == 0
  {
    assert m >= 1 ==> m * unit >= unit;
    assert m <= -1 ==> m * unit <= 0 - unit;
  }

  lemma DivisionIs(n: nat, unit: nat, q: nat, r: nat)
    requires n == q * unit + r && r < unit
    ensures n / unit == q && n % unit == r
  {
    var q', r' := n / unit, n % unit;
    assert n == q' * unit + r';
    Difference(q', q, unit);
    NoMultipleBetween(q' - q, unit);
  }

  lemma Difference(a: int, b: int, unit: int)
    ensures (a - b) * unit == a * unit - b * unit
  {
  }

  lemma RoundsTo(n: nat, t: nat, unit: nat)
    requires 0 - unit < 2 * (n - t * unit) < unit
    ensures RoundedQuotient(n, unit) == t
  {
    var diff := n - t * unit;
    if diff >= 0 {
      DivisionIs(n, unit, t, diff);
    } else {
      assert t > 0;
      assert (t - 1) * unit == t * unit - unit;
      DivisionIs(n, unit, t - 1, unit + diff);
    }
  }

  /** A longer number that is close: its first six digits are the decimal's, brought to six. */
  lemma {:induction false} LongRounds(c: nat, t: nat, p: nat)
    requires Pow10(p + 5) <= c < Pow10(p + 6) && Close(c, t * Pow10(p))
    ensures RoundedQuotient(c, Pow10(p)) == t
  {
    var unit := Pow10(p);
    PowSplit(6, p);
    assert Pow10(6) == SIX_DIGITS;
    var n := t * unit;
    assert n < 2 * c;
    assert n < 2 * SIX_DIGITS * unit;
    assert (c - n) * 8388608 <= n && (n - c) * 8388608 <= n;
    RoundsTo(c, t, unit);
  }

  /** A decimal of at most six digits is not close to a number with a coarser sixth digit. */
  lemma {:induction false} NotCoarser(c: nat, d: nat, y: nat, p: nat)
    requires Pow10(p + 5) <= c && 0 < d < SIX_DIGITS && y < p
    ensures !Close(c, d * Pow10(y))
  {
    hide Close;
    PowSplit(6, y);
    Pow10Grows(y + 6, p + 5);
    assert Pow10(6) == SIX_DIGITS;
    CoarseGap(c, d, Pow10(y));
  }

  lemma CoarseGap(c: nat, d: nat, unit: nat)
    requires unit > 0 && c >= SIX_DIGITS * unit && 0 < d < SIX_DIGITS
    ensures !Close(c, d * unit)
  {
    hide Close;
    ProductGrows(d, SIX_DIGITS - 1, unit);
    GapNotClose(c, d * unit, unit);
  }

  lemma ProductGrows(a: nat, b: nat, unit: nat)
    requires a <= b
    ensures a * unit <= b * unit
  {
    Difference(b, a, unit);
  }

  lemma GapNotClose(c: nat, t: nat, unit: nat)
    requires unit > 0 && c >= SIX_DIGITS * unit && t <= (SIX_DIGITS - 1) * unit
    ensures !Close(c, t)
  {
  }

  lemma {:induction false} Pow10Grows(a: nat, b: nat)
    requires a <= b
    ensures Pow10(a) <= Pow10(b)
    decreases b
  {
    if a < b {
      Pow10Grows(a, b - 1);
    }
  }

  lemma {:induction false} CloseRounds(n: Number, d: Number)
    requires Normal(n) && Normal(d) && n.negative == d.negative
    requires n.coefficient > 0 && 0 < d.coefficient < SIX_DIGITS
    requires Within(DecimalValue(n), DecimalValue(d), 8388608.0)
    ensures Round6(n) == d
  {
    hide DecimalValue, Within, Close, Digits, Normalize, RoundedQuotient, Pow10;
    CloseDecimals(n, d);
    if n.exponent > d.exponent {
      NotFiner(n, d);
      assert false;
    } else if n.coefficient < SIX_DIGITS {
      ShortIsEqual(n, d);
    } else {
      LongCloseRounds(n, d);
    }
  }

  lemma {:induction false} LongCloseRounds(n: Number, d: Number)
    requires Normal(n) && Normal(d) && n.negative == d.negative && n.exponent <= d.exponent
    requires n.coefficient >= SIX_DIGITS && 0 < d.coefficient < SIX_DIGITS
    requires Close(n.coefficient, d.coefficient * Pow10(d.exponent - n.exponent))
    ensures Round6(n) == d
  {
    hide Close, Digits, Normalize, RoundedQuotient, Pow10;
    var c, y := n.coefficient, d.exponent - n.exponent;
    LongDigits(c);
    var p := |Digits(c)| - 6;
    DigitsBound(c);
    DigitsAtLeast(c);
    if y < p {
      NotCoarser(c, d.coefficient, y, p);
      assert false;
    } else {
      var t := d.coefficient * Pow10(y - p);
      PowSplit(y - p, p);
      Associate(d.coefficient, Pow10(y - p), Pow10(p));
      LongRounds(c, t, p);
      NormalizeScaled(d.negative, d.coefficient, y - p, n.exponent + p);
    }
  }

  lemma Associate(a: int, b: int, c: int)
    ensures a * (b * c) == (a * b) * c
  {
  }

  /** Every decimal of at most six digits comes back from its float. */
  lemma {:induction false} SixDigitsSurvive(d: Number)
    requires Normal(d) && d.coefficient < SIX_DIGITS
    ensures Round6(Single(d)) == d
  {
    hide Expansion, Nearest, DecimalValue, Within, Shorten;
    if d.coefficient > 0 {
      SingleWithin(d);
      CloseRounds(Single(d), d);
    }
  }

  /** The float of some decimal of at most six digits. */
  ghost predicate SixDigitFloat(v: Number) {
    exists d :: Normal(d) && d.coefficient < SIX_DIGITS && Single(d) == v
  }

  /** Printed with six digits and read again, a value is itself exactly when it is the float of
      some decimal of at most six digits. */
  lemma {:induction false} PrintedComesBack(v: Number)
    requires Normal(v)
    ensures Single(Round6(v)) == v <==> SixDigitFloat(v)
  {
    hide Single, Round6;
    if SixDigitFloat(v) {
      var d :| Normal(d) && d.coefficient < SIX_DIGITS && Single(d) == v;
      SixDigitsSurvive(d);
    }
  }
}
