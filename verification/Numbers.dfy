/**
 The value of a number as Python compares it: an integer is itself, and a float is
 the binary64 value nearest to the decimal text that denotes it, ties to even.
 Comparisons between the two are exact.
 */
module Numbers {
  import opened Json
  import opened JsonProofs

  /** A number is an integer or a finite float, which is kept as its text. */
  datatype Number = Whole(n: int) | Fraction(lexeme: string)

  function Power(base: real, n: nat): (p: real)
    requires base > 0.0
    ensures p > 0.0
  {
    if n == 0 then 1.0 else base * Power(base, n - 1)
  }

  function Scale(base: real, e: int): (p: real)
    requires base > 0.0
    ensures p > 0.0
    decreases if e < 0 then -e else e
  {
    if e == 0 then 1.0 else if e > 0 then base * Scale(base, e - 1) else Scale(base, e + 1) / base
  }

  // ------------------------------------------------------------- decimal texts

  function WithoutPlus(s: string): string {
    if s != "" && s[0] == '+' then s[1..] else s
  }

  /** The digits before the point. */
  function WholeDigits(lexeme: string): string {
    var i := IntegerSpan(lexeme);
    if lexeme != "" && lexeme[0] == '-' && i > 0 then lexeme[1..i] else lexeme[..i]
  }

  /** The digits after the point. */
  function FractionDigits(lexeme: string): string {
    var i := IntegerSpan(lexeme);
    var f := FractionSpan(lexeme[i..]);
    if f > 0 then lexeme[i + 1..i + f] else ""
  }

  /** The value of an exponent with its mark, which may be missing. */
  function ExponentOf(text: string): int {
    if text == "" then 0 else IntegerValue(WithoutPlus(text[1..]))
  }

  function ExponentPart(lexeme: string): int {
    var afterInteger := lexeme[IntegerSpan(lexeme)..];
    ExponentOf(afterInteger[FractionSpan(afterInteger)..])
  }

  function Decimal(n: int, e: int): real {
    n as real * Scale(10.0, e)
  }

  function FromParts(digits: string, fraction: string, exponent: int): real {
    Decimal(NatValue(digits + fraction), exponent - |fraction|)
  }

  /** The decimal value without its sign. */
  function Magnitude(lexeme: string): real {
    FromParts(WholeDigits(lexeme), FractionDigits(lexeme), ExponentPart(lexeme))
  }

  // ------------------------------------------------------------------ binary64

  const MIN_EXPONENT := -1074
  const MAX_EXPONENT := 971
  const PRECISION := 53

  /**
   The exponent of the spacing between the floats around x: their significands have 53 bits,
   unless they are subnormal.
   */
  function Spacing(x: real): (e: int)
    ensures MIN_EXPONENT <= e <= MAX_EXPONENT
  {
    if x < Scale(2.0, PRECISION) then Descend(x, 0) else Climb(x, 1)
  }

  function Descend(x: real, e: int): (least: int)
    requires MIN_EXPONENT <= e
    ensures MIN_EXPONENT <= least <= e
    decreases e - MIN_EXPONENT, x.Floor
  {
    if e > MIN_EXPONENT && x < Scale(2.0, e - 1 + PRECISION) then Descend(x, e - 1) else e
  }

  function Climb(x: real, e: int): (least: int)
    requires e <= MAX_EXPONENT
    ensures e <= least <= MAX_EXPONENT
    decreases MAX_EXPONENT - e, x.Floor
  {
    if e < MAX_EXPONENT && x >= Scale(2.0, e + PRECISION) then Climb(x, e + 1) else e
  }

  function RoundHalfEven(y: real): int {
    var f := y.Floor;
    if y - f as real < 0.5 || (y - f as real == 0.5 && f % 2 == 0) then f else f + 1
  }

  /** The integer nearest to x in units of two to the power of e. */
  function InUnits(x: real, e: int): int {
    RoundHalfEven(x / Scale(2.0, e))
  }

  function Rounded(x: real, e: int): real {
    InUnits(x, e) as real * Scale(2.0, e)
  }

  /** The float nearest to a decimal that does not overflow. */
  function ToDouble(x: real): real {
    Rounded(x, Spacing(x))
  }

  function FloatValue(lexeme: string): real {
    var m := ToDouble(Magnitude(lexeme));
    if lexeme != "" && lexeme[0] == '-' then -m else m
  }

  function NumberValue(n: Number): real {
    match n
    case Whole(k) => k as real
    case Fraction(lexeme) => FloatValue(lexeme)
  }

  /** Python's `==` on numbers. */
  predicate SameNumber(a: Number, b: Number) {
    NumberValue(a) == NumberValue(b)
  }

  /** `_number`: finite and not negative, where minus zero is not negative. A float has the text that it prints as. */
  predicate IsNumber(n: Number) {
    match n
    case Whole(k) => k >= 0
    case Fraction(lexeme) =>
      IsReal(lexeme) && lexeme in FLOAT_TEXTS && (lexeme != "" && lexeme[0] == '-' ==> lexeme == "-0.0")
  }

  function NumberJson(n: Number): Json {
    match n
    case Whole(k) => Int(k)
    case Fraction(lexeme) => Real(lexeme)
  }

  // ------------------------------------------------- integers that are floats

  function PowerOfTwo(n: nat): (p: nat)
    ensures p > 0
  {
    if n == 0 then 1 else 2 * PowerOfTwo(n - 1)
  }

  lemma {:induction false} PowersAreIntegers(n: nat)
    ensures Power(2.0, n) == PowerOfTwo(n) as real
  {
    if n > 0 {
      PowersAreIntegers(n - 1);
    }
  }

  lemma RoundsToItself(i: int)
    ensures RoundHalfEven(i as real) == i
  {
  }

  lemma QuotientByUnit(k: nat, e: nat)
    ensures k as real / (1.0 / Power(2.0, e)) == (k * PowerOfTwo(e)) as real
    ensures (k * PowerOfTwo(e)) as real * (1.0 / Power(2.0, e)) == k as real
  {
    PowersAreIntegers(e);
    var p := Power(2.0, e);
    assert (k * PowerOfTwo(e)) as real == k as real * p;
    Cancel(k as real, p);
  }

  lemma Cancel(x: real, p: real)
    requires p > 0.0
    ensures x / (1.0 / p) == x * p && (x * p) * (1.0 / p) == x
  {
    assert (1.0 / p) * p == 1.0;
    assert (x * p) * (1.0 / p) == x * (p * (1.0 / p));
    assert (x * p) * (1.0 / p) == x;
  }

  lemma ExactQuotient(x: real, unit: real, n: int)
    requires unit > 0.0 && x / unit == n as real && n as real * unit == x
    ensures RoundHalfEven(x / unit) as real * unit == x
  {
    RoundsToItself(n);
  }

  lemma {:induction false} PowerIsScale(n: nat)
    ensures Scale(2.0, n) == Power(2.0, n)
  {
    if n > 0 {
      PowerIsScale(n - 1);
    }
  }

  lemma Halved(p: real)
    requires p > 0.0
    ensures (1.0 / p) / 2.0 == 1.0 / (2.0 * p)
  {
    assert (1.0 / p) * p == 1.0;
    assert (1.0 / p) / 2.0 * (2.0 * p) == 1.0;
  }

  lemma {:induction false} UnitOf(e: int)
    requires e >= 0
    ensures Scale(2.0, -e) == 1.0 / Power(2.0, e)
  {
    if e > 0 {
      UnitOf(e - 1);
      Halved(Power(2.0, e - 1));
    }
  }

  lemma SpacingIsSmall(x: real)
    requires x < Power(2.0, PRECISION)
    ensures Spacing(x) <= 0
  {
    PowerIsScale(PRECISION);
  }

  lemma IntegerOnGrid(k: nat, x: real, e: int)
    requires x == k as real && e <= 0
    ensures Rounded(x, e) == x
  {
    UnitOf(-e);
    QuotientByUnit(k, -e);
    ExactQuotient(x, Scale(2.0, e), k * PowerOfTwo(-e));
  }

  lemma GridPointsAreFloats(k: nat, x: real)
    requires x == k as real && Spacing(x) <= 0
    ensures ToDouble(x) == x
  {
    IntegerOnGrid(k, x, Spacing(x));
  }

  /** Every integer below two to the fifty-third is the value of a float. */
  lemma SmallIntegersAreFloats(k: nat)
    requires k as real < Power(2.0, PRECISION)
    ensures ToDouble(k as real) == k as real
  {
    var x := k as real;
    SpacingIsSmall(x);
    GridPointsAreFloats(k, x);
  }

  lemma PlainFloatSpans(minus: string, k: nat)
    requires minus == "" || minus == "-"
    ensures var s, i := PlainFloat(minus, k), |minus + PrintNat(k)|;
            && i > 0 && IntegerSpan(s) == i && s[i..] == ".0" && s[i + 2..] == ""
            && s[|minus|..i] == PrintNat(k) && |s| == i + 2
    ensures PlainFloat(minus, k)[0] == '-' <==> minus == "-"
  {
    PrintNatDigits(k);
    IntegerSpanOf(minus, PrintNat(k), ".0");
  }

  lemma PlainFloatIsReal(minus: string, k: nat)
    requires minus == "" || minus == "-"
    ensures IsReal(PlainFloat(minus, k))
  {
    var s, i := PlainFloat(minus, k), |minus + PrintNat(k)|;
    PlainFloatSpans(minus, k);
    PointZeroSpan();
    NumberSpanParts(s, i, 2);
    assert s[..i + 2] == s;
  }

  lemma PlainFloatDigits(minus: string, k: nat)
    requires minus == "" || minus == "-"
    ensures WholeDigits(PlainFloat(minus, k)) == PrintNat(k)
    ensures FractionDigits(PlainFloat(minus, k)) == "0" && ExponentPart(PlainFloat(minus, k)) == 0
  {
    var s, i := PlainFloat(minus, k), |minus + PrintNat(k)|;
    PlainFloatSpans(minus, k);
    PointZeroSpan();
    assert s[i + 1] == s[i..][1];
    assert s[i + 1..i + 2] == [s[i + 1]];
    assert s[0] == '-' <==> minus == "-";
  }

  lemma AppendZero(k: nat)
    ensures NatValue(PrintNat(k) + "0") == 10 * k
  {
    PrintNatDigits(k);
    var s := PrintNat(k) + "0";
    assert s[..|s| - 1] == PrintNat(k) && s[|s| - 1] == '0';
  }

  /** The text of a float with an integral value is one number, and denotes that value. */
  lemma PlainFloatParts(minus: string, k: nat)
    requires minus == "" || minus == "-"
    ensures IsReal(PlainFloat(minus, k))
    ensures Magnitude(PlainFloat(minus, k)) == k as real
    ensures PlainFloat(minus, k)[0] == '-' <==> minus == "-"
  {
    PlainFloatSpans(minus, k);
    PlainFloatIsReal(minus, k);
    PlainFloatDigits(minus, k);
    MagnitudeOf(PlainFloat(minus, k), k);
  }

  lemma MagnitudeOf(lexeme: string, k: nat)
    requires WholeDigits(lexeme) == PrintNat(k) && FractionDigits(lexeme) == "0" && ExponentPart(lexeme) == 0
    ensures Magnitude(lexeme) == k as real
  {
    AppendZero(k);
    TenthOf(k);
  }

  lemma PointZeroSpan()
    ensures FractionSpan(".0") == 2 && ExponentSpan("") == 0
  {
    assert ".0"[1..] == "0" && "0"[1..] == "";
    assert DigitSpan("0") == 1 + DigitSpan("");
  }

  lemma TenthOf(k: nat)
    ensures (10 * k) as real * Scale(10.0, -1) == k as real
  {
    assert Power(10.0, 1) == 10.0 * Power(10.0, 0);
    assert Scale(10.0, -1) == 1.0 / 10.0;
  }

  lemma {:induction false} PowersMultiply(m: nat, n: nat)
    ensures PowerOfTwo(m + n) == PowerOfTwo(m) * PowerOfTwo(n)
  {
    if m > 0 {
      PowersMultiply(m - 1, n);
    }
  }

  lemma PowersUpToTen()
    ensures PowerOfTwo(3) == 8 && PowerOfTwo(10) == 0x400
  {
    assert PowerOfTwo(1) == 2 * PowerOfTwo(0) && PowerOfTwo(2) == 2 * PowerOfTwo(1);
    assert PowerOfTwo(3) == 2 * PowerOfTwo(2);
    PowersMultiply(3, 7);
    PowersMultiply(3, 4);
    PowersMultiply(3, 1);
  }

  lemma PowersUpToFifty()
    ensures PowerOfTwo(50) == 0x4_0000_0000_0000
  {
    PowersUpToTen();
    PowersMultiply(10, 10);
    PowersMultiply(20, 20);
    PowersMultiply(10, 40);
  }

  lemma ExactIntegersAreSmall()
    ensures Power(2.0, PRECISION) == EXACT_INTEGERS as real
  {
    PowersUpToTen();
    PowersUpToFifty();
    PowersMultiply(3, 50);
    PowersAreIntegers(PRECISION);
  }

  /**
   A small integer and the float with its value are equal, although they are different numbers
   with different texts.
   */
  lemma WholeEqualsFloat(k: nat)
    requires k < EXACT_INTEGERS
    ensures IsNumber(Whole(k)) && IsNumber(Fraction(PlainFloat("", k)))
    ensures SameNumber(Whole(k), Fraction(PlainFloat("", k)))
  {
    assert HasPlain(FLOAT_TEXTS, k);
    ExactIntegersAreSmall();
    PlainFloatParts("", k);
    SmallIntegersAreFloats(k);
  }

  /** A float and its negation have the same text but for the sign, and opposite values. */
  lemma NegatedText(k: nat)
    requires k < EXACT_INTEGERS
    ensures FloatValue(PlainFloat("", k)) == k as real && FloatValue(PlainFloat("-", k)) == -(k as real)
  {
    ExactIntegersAreSmall();
    PlainFloatParts("", k);
    PlainFloatParts("-", k);
    SmallIntegersAreFloats(k);
  }

  lemma ZeroTexts()
    ensures PlainFloat("", 0) == "0.0" && PlainFloat("-", 0) == "-0.0"
  {
    assert PrintNat(0) == "0";
  }

  /** So are the two zeros. */
  lemma ZerosAreEqual(zero: nat)
    requires zero == 0
    ensures IsNumber(Fraction(PlainFloat("", zero))) && IsNumber(Fraction(PlainFloat("-", zero)))
    ensures SameNumber(Fraction(PlainFloat("", zero)), Fraction(PlainFloat("-", zero)))
  {
    assert HasPlain(FLOAT_TEXTS, zero);
    ZeroTexts();
    PlainFloatIsReal("", zero);
    PlainFloatIsReal("-", zero);
    NegatedText(zero);
  }
}
