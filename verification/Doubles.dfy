/** The binary64 value of a decimal text is the nearest one there is, and the even one of two that are as near. */
module Doubles {
  import opened Json
  import opened JsonProofs
  import opened Numbers

  ghost predicate OnGrid(d: real, m: int, e: int) {
    d == m as real * Scale(2.0, e)
  }

  /** A significand of 53 bits at one of the exponents that there are. */
  ghost predicate Represents(d: real, m: int, e: int) {
    -1074 <= e <= 971 && -m < EXACT_INTEGERS && m < EXACT_INTEGERS && OnGrid(d, m, e)
  }

  ghost predicate IsDouble(d: real) {
    exists m, e :: Represents(d, m, e)
  }

  function Distance(x: real, y: real): (d: real)
    ensures d >= 0.0
  {
    if x < y then y - x else x - y
  }

  // ------------------------------------------------------------ powers of two

  lemma Doubled(e: int)
    ensures Scale(2.0, e + 1) == 2.0 * Scale(2.0, e)
  {
    if e < -1 {
      var p := Power(2.0, -e - 1);
      assert Power(2.0, -e) == 2.0 * p;
      assert 1.0 / p == 2.0 * (1.0 / (2.0 * p));
    } else if e == -1 {
      assert Power(2.0, 1) == 2.0 * Power(2.0, 0);
    }
  }

  lemma Associates(a: real, b: real, c: real)
    ensures a * (b * c) == (a * b) * c
  {
  }

  lemma BothDoubled(scale: real, scale': real, power: real, power': real, unit: real)
    requires scale == power * unit && scale' == 2.0 * scale && power' == 2.0 * power
    ensures scale' == power' * unit
  {
    Associates(2.0, power, unit);
  }

  lemma NextPower(k: nat)
    requires k > 0
    ensures PowerOfTwo(k) as real == 2.0 * PowerOfTwo(k - 1) as real
  {
  }

  /** `big` is the k-th power of two times `small`. */
  ghost predicate Multiple(big: real, k: nat, small: real) {
    big == PowerOfTwo(k) as real * small
  }

  lemma NoMultiple(small: real)
    ensures Multiple(small, 0, small)
  {
    assert PowerOfTwo(0) == 1;
  }

  lemma NextMultiple(big: real, k: nat, small: real)
    requires k > 0 && Multiple(big, k - 1, small)
    ensures Multiple(2.0 * big, k, small)
  {
    NextPower(k);
    BothDoubled(big, 2.0 * big, PowerOfTwo(k - 1) as real, PowerOfTwo(k) as real, small);
  }

  lemma {:induction false} Multiplied(e: int, k: nat)
    ensures Multiple(Scale(2.0, e + k), k, Scale(2.0, e))
  {
    if k == 0 {
      NoMultiple(Scale(2.0, e));
    } else {
      Multiplied(e, k - 1);
      DoubledAt(e + k);
      NextMultiple(Scale(2.0, e + k - 1), k, Scale(2.0, e));
    }
  }

  lemma DoubledAt(e: int)
    ensures Scale(2.0, e) == 2.0 * Scale(2.0, e - 1)
  {
    Doubled(e - 1);
  }

  // ---------------------------------------------------------------- spacing

  lemma {:induction false} DescendExact(x: real, e: int)
    requires MIN_EXPONENT <= e && x < Scale(2.0, e + PRECISION)
    ensures var least := Descend(x, e);
            x < Scale(2.0, least + PRECISION)
            && (least == MIN_EXPONENT || x >= Scale(2.0, least - 1 + PRECISION))
    decreases e - MIN_EXPONENT
  {
    if e > MIN_EXPONENT && x < Scale(2.0, e - 1 + PRECISION) {
      DescendExact(x, e - 1);
    }
  }

  lemma {:induction false} ClimbExact(x: real, e: int)
    requires e <= MAX_EXPONENT && x >= Scale(2.0, e - 1 + PRECISION)
    ensures var least := Climb(x, e);
            x >= Scale(2.0, least - 1 + PRECISION)
            && (least == MAX_EXPONENT || x < Scale(2.0, least + PRECISION))
    decreases MAX_EXPONENT - e
  {
    if e < MAX_EXPONENT && x >= Scale(2.0, e + PRECISION) {
      ClimbExact(x, e + 1);
    }
  }

  /** The spacing is the least exponent at which x has 53 bits before the point. */
  lemma SpacingExact(x: real)
    ensures Spacing(x) == MAX_EXPONENT || x < Scale(2.0, Spacing(x) + 53)
    ensures Spacing(x) == MIN_EXPONENT || x >= Scale(2.0, Spacing(x) + 52)
  {
    if x < Scale(2.0, PRECISION) {
      DescendExact(x, 0);
    } else {
      ClimbExact(x, 1);
    }
  }

  // ---------------------------------------------------------------- rounding

  /** Rounding gives the nearest integer, and the even one of two. */
  lemma RoundingIsNearest(y: real, n: int)
    ensures Distance(y, RoundHalfEven(y) as real) <= Distance(y, n as real)
    ensures Distance(y, RoundHalfEven(y) as real) == Distance(y, n as real) && n != RoundHalfEven(y) ==>
              RoundHalfEven(y) % 2 == 0
  {
    var f := y.Floor;
    assert n <= f || n >= f + 1;
  }

  lemma DistanceScales(y: real, n: real, unit: real, x: real, d: real)
    requires unit > 0.0 && x == y * unit && d == n * unit
    ensures Distance(x, d) == Distance(y, n) * unit
  {
    Scales(y, n, unit);
    Distributes(y, n, unit);
  }

  lemma Distributes(a: real, b: real, c: real)
    ensures (a - b) * c == a * c - b * c && (b - a) * c == b * c - a * c
  {
  }

  lemma Scales(a: real, b: real, unit: real)
    requires unit > 0.0
    ensures a < b <==> a * unit < b * unit
    ensures a == b <==> a * unit == b * unit
  {
    if a < b { assert (b - a) * unit > 0.0; }
    if b < a { assert (a - b) * unit > 0.0; }
  }

  lemma Quotient(x: real, unit: real)
    requires unit > 0.0
    ensures x / unit * unit == x
  {
  }

  lemma SameOrder(near: real, far: real, unit: real, near': real, far': real)
    requires unit > 0.0 && near' == near * unit && far' == far * unit
    ensures near < far <==> near' < far'
    ensures near == far <==> near' == far'
  {
    Scales(near, far, unit);
  }

  /** What holds of the distances to integers holds of the distances to multiples of the unit. */
  lemma DistancesOnGrid(y: real, r: real, n: real, unit: real, x: real, rounded: real, d: real)
    requires unit > 0.0 && x == y * unit && rounded == r * unit && d == n * unit
    ensures Distance(x, rounded) < Distance(x, d) <==> Distance(y, r) < Distance(y, n)
    ensures Distance(x, rounded) == Distance(x, d) <==> Distance(y, r) == Distance(y, n)
  {
    DistanceScales(y, n, unit, x, d);
    DistanceScales(y, r, unit, x, rounded);
    SameOrder(Distance(y, r), Distance(y, n), unit, Distance(x, rounded), Distance(x, d));
  }

  lemma MultipleOfMultiple(d: real, m: int, big: real, k: nat, small: real)
    requires d == m as real * big && Multiple(big, k, small)
    ensures d == (m * PowerOfTwo(k)) as real * small
  {
    ProductsOfIntegers(m, PowerOfTwo(k));
    Associates(m as real, PowerOfTwo(k) as real, small);
  }

  /** A double with an exponent of at least s is a multiple of the spacing there. */
  lemma CoarseIsOnGrid(d: real, m: int, s: int, k: nat)
    requires OnGrid(d, m, s + k)
    ensures OnGrid(d, m * PowerOfTwo(k), s)
  {
    Multiplied(s, k);
    MultipleOfMultiple(d, m, Scale(2.0, s + k), k, Scale(2.0, s));
  }

  lemma ProductsOfIntegers(a: int, b: int)
    ensures (a * b) as real == a as real * b as real
  {
  }

  const HALF: int := 0x10_0000_0000_0000

  lemma HalfIsPower()
    ensures PowerOfTwo(52) == HALF
  {
    PowersUpToTen();
    PowersUpToFifty();
    PowersMultiply(50, 2);
    assert PowerOfTwo(2) == 2 * PowerOfTwo(1) && PowerOfTwo(1) == 2 * PowerOfTwo(0);
  }

  lemma BoundedProduct(m: int, k: nat, unit: real, fine: real)
    requires k > 0 && m < EXACT_INTEGERS && fine > 0.0 && unit == PowerOfTwo(k) as real * fine
    ensures m as real * fine < HALF as real * unit
  {
    var q := PowerOfTwo(k - 1);
    assert HALF * PowerOfTwo(k) == EXACT_INTEGERS * q;
    assert EXACT_INTEGERS * q >= EXACT_INTEGERS;
    assert m < HALF * PowerOfTwo(k);
    ProductsOfIntegers(HALF, PowerOfTwo(k));
    Scales(m as real, HALF as real * PowerOfTwo(k) as real, fine);
    Associates(HALF as real, PowerOfTwo(k) as real, fine);
  }

  /** One with a smaller exponent lies below the multiple 2^52. */
  lemma FineIsBelow(d: real, m: int, e: int, s: int)
    requires Represents(d, m, e) && e < s
    ensures d < HALF as real * Scale(2.0, s)
  {
    Multiplied(e, s - e);
    FineProduct(d, m, Scale(2.0, e), s - e, Scale(2.0, s));
  }

  lemma FineProduct(d: real, m: int, fine: real, k: nat, unit: real)
    requires k > 0 && m < EXACT_INTEGERS && fine > 0.0 && Multiple(unit, k, fine) && d == m as real * fine
    ensures d < HALF as real * unit
  {
    BoundedProduct(m, k, unit, fine);
  }

  lemma HalfMultiple(big: real, k: nat, small: real)
    requires Multiple(big, k, small) && PowerOfTwo(k) == HALF
    ensures big == HALF as real * small
  {
  }

  lemma TopOfGrid(x: real, s: int)
    requires s == Spacing(x) && s > MIN_EXPONENT
    ensures x >= HALF as real * Scale(2.0, s)
  {
    var k := 52;
    SpacingExact(x);
    HalfIsPower();
    Multiplied(s, k);
    HalfMultiple(Scale(2.0, s + k), k, Scale(2.0, s));
  }

  lemma FartherBelow(x: real, top: real, d: real)
    requires d < top <= x
    ensures Distance(x, top) < Distance(x, d)
  {
  }

  ghost predicate Even(n: int) { n % 2 == 0 }

  lemma NearestOnUnit(x: real, y: real, unit: real, n: int, d: real, rounded: real)
    requires unit > 0.0 && x == y * unit && d == n as real * unit && rounded == RoundHalfEven(y) as real * unit
    ensures Distance(x, rounded) <= Distance(x, d)
    ensures Distance(x, rounded) == Distance(x, d) && rounded != d ==> Even(RoundHalfEven(y))
  {
    RoundingIsNearest(y, n);
    DistancesOnGrid(y, RoundHalfEven(y) as real, n as real, unit, x, rounded, d);
  }

  /** The significand that x is rounded to. */
  function Significand(x: real): int {
    InUnits(x, Spacing(x))
  }

  lemma RoundedIsOnGrid(x: real)
    ensures OnGrid(ToDouble(x), Significand(x), Spacing(x))
  {
  }

  lemma NearestInUnits(x: real, e: int, d: real, n: int)
    requires OnGrid(d, n, e)
    ensures Distance(x, Rounded(x, e)) <= Distance(x, d)
    ensures Distance(x, Rounded(x, e)) == Distance(x, d) && Rounded(x, e) != d ==> Even(InUnits(x, e))
  {
    var unit := Scale(2.0, e);
    Quotient(x, unit);
    NearestOnUnit(x, x / unit, unit, n, d, Rounded(x, e));
  }

  lemma NearestOnGrid(x: real, d: real, n: int)
    requires OnGrid(d, n, Spacing(x))
    ensures Distance(x, ToDouble(x)) <= Distance(x, d)
    ensures Distance(x, ToDouble(x)) == Distance(x, d) && ToDouble(x) != d ==> Even(Significand(x))
  {
    NearestInUnits(x, Spacing(x), d, n);
  }

  lemma FineIsFarther(x: real, d: real, m: int, e: int)
    requires Represents(d, m, e) && e < Spacing(x)
    ensures Distance(x, ToDouble(x)) < Distance(x, d)
  {
    var top := HALF as real * Scale(2.0, Spacing(x));
    TopOfGrid(x, Spacing(x));
    FineIsBelow(d, m, e, Spacing(x));
    NearestOnGrid(x, top, HALF);
    FartherBelow(x, top, d);
  }

  /**
   No double is nearer to x than the one that x becomes, and of two that are as near it is the one
   with the even significand.
   */
  lemma DoubleIsNearest(x: real, d: real)
    requires IsDouble(d)
    ensures Distance(x, ToDouble(x)) <= Distance(x, d)
    ensures Distance(x, ToDouble(x)) == Distance(x, d) && ToDouble(x) != d ==>
              Even(Significand(x)) && OnGrid(ToDouble(x), Significand(x), Spacing(x))
  {
    RoundedIsOnGrid(x);
    var m, e :| Represents(d, m, e);
    if e < Spacing(x) {
      FineIsFarther(x, d, m, e);
    } else {
      var k := e - Spacing(x);
      CoarseIsOnGrid(d, m, Spacing(x), k);
      NearestOnGrid(x, d, m * PowerOfTwo(k));
    }
  }

  lemma NegatedDouble(d: real)
    requires IsDouble(d)
    ensures IsDouble(-d)
  {
    var m, e :| Represents(d, m, e);
    assert Represents(-d, -m, e);
  }

  /** The value that the text of a number denotes, with its sign. */
  function DecimalValue(lexeme: string): real {
    if lexeme != "" && lexeme[0] == '-' then -Magnitude(lexeme) else Magnitude(lexeme)
  }

  lemma DistanceNegates(x: real, d: real)
    ensures Distance(-x, -d) == Distance(x, d)
  {
  }

  /** The value of a float text is a nearest double to the decimal that it denotes. */
  lemma FloatIsNearest(lexeme: string, d: real)
    requires IsDouble(d)
    ensures Distance(DecimalValue(lexeme), FloatValue(lexeme)) <= Distance(DecimalValue(lexeme), d)
  {
    var x := Magnitude(lexeme);
    if lexeme != "" && lexeme[0] == '-' {
      NegatedDouble(d);
      DoubleIsNearest(x, -d);
      DistanceNegates(x, -d);
      DistanceNegates(x, ToDouble(x));
    } else {
      DoubleIsNearest(x, d);
    }
  }

  // ---------------------------------------------------------- it is a double

  lemma RoundingIsBounded(y: real, n: int)
    requires 0.0 <= y
    ensures 0 <= RoundHalfEven(y)
    ensures y < n as real ==> RoundHalfEven(y) <= n
    ensures y < n as real - 0.5 ==> RoundHalfEven(y) < n
  {
  }

  /** Below the overflow threshold, half a step above the greatest double. */
  ghost predicate Fits(x: real) {
    0.0 <= x < (EXACT_INTEGERS as real - 0.5) * Scale(2.0, 971)
  }

  lemma QuotientBounds(x: real, unit: real, n: real)
    requires unit > 0.0 && x >= 0.0
    ensures x / unit >= 0.0
    ensures x < n * unit ==> x / unit < n
  {
    Quotient(x, unit);
    Scales(x / unit, n, unit);
    Scales(x / unit, 0.0, unit);
  }

  lemma ExactMultiple(big: real, k: nat, small: real)
    requires Multiple(big, k, small) && PowerOfTwo(k) == EXACT_INTEGERS
    ensures big == EXACT_INTEGERS as real * small
  {
  }

  lemma FullIsPower()
    ensures PowerOfTwo(53) == EXACT_INTEGERS
  {
    HalfIsPower();
  }

  lemma BelowNextPower(x: real)
    requires Spacing(x) < MAX_EXPONENT
    ensures x < EXACT_INTEGERS as real * Scale(2.0, Spacing(x))
  {
    var s, k := Spacing(x), 53;
    SpacingExact(x);
    FullIsPower();
    Multiplied(s, k);
    ExactMultiple(Scale(2.0, s + k), k, Scale(2.0, s));
  }

  lemma SignificandBounds(x: real)
    requires Fits(x)
    ensures 0 <= Significand(x) <= EXACT_INTEGERS
    ensures Spacing(x) == MAX_EXPONENT ==> Significand(x) < EXACT_INTEGERS
  {
    var unit := Scale(2.0, Spacing(x));
    var n := EXACT_INTEGERS;
    if Spacing(x) == MAX_EXPONENT {
      QuotientBounds(x, unit, n as real - 0.5);
    } else {
      BelowNextPower(x);
      QuotientBounds(x, unit, n as real);
    }
    RoundingIsBounded(x / unit, n);
  }

  lemma HalfOnNextGrid(d: real, s: int)
    requires OnGrid(d, EXACT_INTEGERS, s)
    ensures OnGrid(d, HALF, s + 1)
  {
    Doubled(s);
    Associates(HALF as real, 2.0, Scale(2.0, s));
  }

  /** What rounding gives is a double, unless it overflows. */
  lemma ToDoubleIsDouble(x: real)
    requires Fits(x)
    ensures IsDouble(ToDouble(x))
  {
    SignificandBounds(x);
    RoundedIsOnGrid(x);
    if Significand(x) < EXACT_INTEGERS {
      assert Represents(ToDouble(x), Significand(x), Spacing(x));
    } else {
      HalfOnNextGrid(ToDouble(x), Spacing(x));
      assert Represents(ToDouble(x), HALF, Spacing(x) + 1);
    }
  }

  // ------------------------------------------------------------ decimal texts

  ghost predicate AreDigits(s: string) {
    s != "" && forall i | 0 <= i < |s| :: IsDigit(s[i])
  }

  /** The fraction of a number text, with its point. */
  function Fractional(fraction: string): string {
    if fraction == "" then "" else "." + fraction
  }

  /** The exponent of a number text, with its mark and its sign. */
  function Exponential(exponent: int): string {
    if exponent == 0 then ""
    else if exponent < 0 then "e-" + PrintNat(-exponent)
    else "e+" + PrintNat(exponent)
  }

  lemma NegativeExponent(n: nat)
    ensures ExponentOf("e-" + PrintNat(n)) == 0 - n
  {
    PrintNatDigits(n);
    var text := "e-" + PrintNat(n);
    assert text[1..] == "-" + PrintNat(n);
    assert text[1..][1..] == PrintNat(n);
  }

  lemma PositiveExponent(n: nat)
    ensures ExponentOf("e+" + PrintNat(n)) == n
  {
    PrintNatDigits(n);
    var text := "e+" + PrintNat(n);
    assert text[1..] == "+" + PrintNat(n);
    assert text[1..][1..] == PrintNat(n);
  }

  lemma ExponentialExact(exponent: int)
    ensures ExponentOf(Exponential(exponent)) == exponent
  {
    if exponent < 0 {
      NegativeExponent(-exponent);
    } else {
      PositiveExponent(exponent);
    }
  }

  lemma FractionSpanOf(fraction: string, tail: string)
    requires fraction == "" || AreDigits(fraction)
    requires tail == "" || tail[0] == 'e'
    ensures FractionSpan(Fractional(fraction) + tail) == |Fractional(fraction)|
  {
    var s := Fractional(fraction) + tail;
    if fraction != "" {
      assert s[0] == '.' && s[1..] == fraction + tail;
      DigitSpanAll(fraction);
      DigitSpanAppend(fraction, tail);
    } else {
      assert s == tail;
    }
  }

  lemma WholeDigitsOf(minus: string, digits: string, tail: string)
    requires (minus == "" || minus == "-") && AreDigits(digits)
    requires IntegerSpan(minus + digits + tail) == |minus + digits|
    ensures WholeDigits(minus + digits + tail) == digits
  {
    var s, i := minus + digits + tail, |minus + digits|;
    assert s[|minus|..i] == digits;
    if minus == "" {
      assert s[0] == digits[0];
    } else {
      assert s[0] == '-';
    }
  }

  lemma FractionDigitsOf(s: string, i: nat, fraction: string, tail: string)
    requires i <= |s| && i == IntegerSpan(s) && s[i..] == Fractional(fraction) + tail
    requires FractionSpan(s[i..]) == |Fractional(fraction)|
    ensures FractionDigits(s) == fraction && s[i..][|Fractional(fraction)|..] == tail
  {
    if fraction != "" {
      assert s[i + 1..i + |Fractional(fraction)|] == s[i..][1..|Fractional(fraction)|] == fraction;
    }
  }

  lemma ExponentPartOf(s: string, i: nat, f: nat, text: string)
    requires i <= |s| && i == IntegerSpan(s) && f == FractionSpan(s[i..]) && s[i..][f..] == text
    ensures ExponentPart(s) == ExponentOf(text)
  {
  }

  lemma PartsOf(minus: string, digits: string, fraction: string, exponent: int)
    requires (minus == "" || minus == "-") && AreDigits(digits) && (digits[0] == '0' ==> |digits| == 1)
    requires fraction == "" || AreDigits(fraction)
    ensures var s := minus + digits + (Fractional(fraction) + Exponential(exponent));
            WholeDigits(s) == digits && FractionDigits(s) == fraction && ExponentPart(s) == exponent
  {
    var tail := Fractional(fraction) + Exponential(exponent);
    var s, i := minus + digits + tail, |minus + digits|;
    IntegerSpanOf(minus, digits, tail);
    WholeDigitsOf(minus, digits, tail);
    assert s[i..] == tail;
    FractionSpanOf(fraction, Exponential(exponent));
    FractionDigitsOf(s, i, fraction, Exponential(exponent));
    ExponentPartOf(s, i, |Fractional(fraction)|, Exponential(exponent));
    ExponentialExact(exponent);
  }

  lemma MagnitudeByParts(lexeme: string, digits: string, fraction: string, exponent: int)
    requires WholeDigits(lexeme) == digits && FractionDigits(lexeme) == fraction && ExponentPart(lexeme) == exponent
    ensures Magnitude(lexeme) == FromParts(digits, fraction, exponent)
  {
  }

  lemma FromPartsIs(digits: string, fraction: string, exponent: int)
    ensures FromParts(digits, fraction, exponent) == Decimal(NatValue(digits + fraction), exponent - |fraction|)
  {
  }

  /** A text in scientific notation denotes its digits times a power of ten. */
  lemma MagnitudeExact(lexeme: string, minus: string, k: nat, fraction: string, exponent: int)
    requires (minus == "" || minus == "-") && (fraction == "" || AreDigits(fraction))
    requires lexeme == minus + PrintNat(k) + (Fractional(fraction) + Exponential(exponent))
    ensures Magnitude(lexeme) == Decimal(NatValue(PrintNat(k) + fraction), exponent - |fraction|)
  {
    PrintNatDigits(k);
    PartsOf(minus, PrintNat(k), fraction, exponent);
    MagnitudeByParts(lexeme, PrintNat(k), fraction, exponent);
    FromPartsIs(PrintNat(k), fraction, exponent);
  }

  /** Shifting the point by one place is a factor of ten, and without an exponent an integer is itself. */
  lemma DecimalExact(n: int, e: int)
    ensures Decimal(n, 0) == n as real && Decimal(n, e + 1) == 10.0 * Decimal(n, e)
  {
    assert Scale(10.0, e + 1) == 10.0 * Scale(10.0, e);
    assert n as real * (10.0 * Scale(10.0, e)) == 10.0 * (n as real * Scale(10.0, e));
  }
}
