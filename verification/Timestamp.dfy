/** UTC instants and their fixed text form, `%Y-%m-%dT%H:%M:%S.%fZ`. */
module Timestamp {
  import opened Results
  import opened Order
  import opened Json

  datatype InstantFields = InstantFields(
    year: int, month: int, day: int, hour: int, minute: int, second: int, micro: int)

  predicate LeapYear(year: int) {
    year % 4 == 0 && (year % 100 != 0 || year % 400 == 0)
  }

  function DaysInMonth(year: int, month: int): int {
    if month == 2 then (if LeapYear(year) then 29 else 28)
    else if month in {4, 6, 9, 11} then 30 else 31
  }

  datatype Unit = Year | Month | Day | Hour | Minute | Second | Micro

  /** The range that a Python `datetime` enforces on one field. */
  predicate InRange(t: InstantFields, u: Unit) {
    match u
    case Year => 1 <= t.year <= 9999
    case Month => 1 <= t.month <= 12
    case Day => 1 <= t.day <= 31 && t.day <= DaysInMonth(t.year, t.month)
    case Hour => 0 <= t.hour < 24
    case Minute => 0 <= t.minute < 60
    case Second => 0 <= t.second < 60
    case Micro => 0 <= t.micro < 1_000_000
  }

  predicate ValidInstant(t: InstantFields) {
    forall u: Unit :: InRange(t, u)
  }

  lemma RangesOf(t: Instant)
    ensures 1 <= t.year <= 9999 && 1 <= t.month <= 12 && 1 <= t.day <= 31
    ensures 0 <= t.hour < 24 && 0 <= t.minute < 60 && 0 <= t.second < 60 && 0 <= t.micro < 1_000_000
  {
    assert InRange(t, Year) && InRange(t, Month) && InRange(t, Day);
    assert InRange(t, Hour) && InRange(t, Minute) && InRange(t, Second) && InRange(t, Micro);
  }

  /** The proleptic Gregorian calendar, spelled out. */
  lemma InstantExact(t: InstantFields)
    ensures ValidInstant(t) <==>
              && 1 <= t.year <= 9999
              && (t.month in {1, 3, 5, 7, 8, 10, 12} ==> 1 <= t.day <= 31)
              && (t.month in {4, 6, 9, 11} ==> 1 <= t.day <= 30)
              && (t.month == 2 && (t.year % 400 == 0 || (t.year % 4 == 0 && t.year % 100 != 0)) ==> 1 <= t.day <= 29)
              && (t.month == 2 && !(t.year % 400 == 0 || (t.year % 4 == 0 && t.year % 100 != 0)) ==> 1 <= t.day <= 28)
              && 1 <= t.month <= 12
              && 0 <= t.hour <= 23 && 0 <= t.minute <= 59 && 0 <= t.second <= 59 && 0 <= t.micro <= 999_999
  {
    if ValidInstant(t) {
      RangesOf(t);
      assert InRange(t, Day);
    }
  }

  type Instant = t: InstantFields | ValidInstant(t) witness InstantFields(1, 1, 1, 0, 0, 0, 0)

  /** The fields of an instant as one mixed-radix number. */
  function Ordinal(t: Instant): int {
    (((((t.year * 13 + t.month) * 32 + t.day) * 24 + t.hour) * 60 + t.minute) * 60 + t.second) * 1_000_000 + t.micro
  }

  predicate Before(a: Instant, b: Instant) {
    Ordinal(a) < Ordinal(b)
  }

  /** Instants in one time zone compare field by field, most significant first. */
  function InstantKey(t: Instant): Key {
    Cons(Num(t.year), Cons(Num(t.month), Cons(Num(t.day), TimeKey(t))))
  }

  function TimeKey(t: Instant): Key {
    Cons(Num(t.hour), Cons(Num(t.minute), Cons(Num(t.second), Cons(Num(t.micro), Nil))))
  }

  lemma TimeOfDayIsLexicographic(a: Instant, b: Instant)
    ensures Less(TimeKey(a), TimeKey(b)) <==>
            ((a.hour * 60 + a.minute) * 60 + a.second) * 1_000_000 + a.micro
            < ((b.hour * 60 + b.minute) * 60 + b.second) * 1_000_000 + b.micro
  {
    RangesOf(a);
    RangesOf(b);
    var a2, b2 := Cons(Num(a.minute), Cons(Num(a.second), Cons(Num(a.micro), Nil))),
        Cons(Num(b.minute), Cons(Num(b.second), Cons(Num(b.micro), Nil)));
    var a3, b3 := Cons(Num(a.second), Cons(Num(a.micro), Nil)), Cons(Num(b.second), Cons(Num(b.micro), Nil));
    var a4, b4 := Cons(Num(a.micro), Nil), Cons(Num(b.micro), Nil);
    assert Less(a4, b4) <==> a.micro < b.micro;
    assert Less(a3, b3) <==> a.second < b.second || (a.second == b.second && Less(a4, b4));
    assert Less(a2, b2) <==> a.minute < b.minute || (a.minute == b.minute && Less(a3, b3));
  }

  /** The order of the ordinals is the field by field order. */
  lemma BeforeIsLexicographic(a: Instant, b: Instant)
    ensures Before(a, b) <==> Less(InstantKey(a), InstantKey(b))
  {
    RangesOf(a);
    RangesOf(b);
    TimeOfDayIsLexicographic(a, b);
    var a2, b2 := Cons(Num(a.month), Cons(Num(a.day), TimeKey(a))), Cons(Num(b.month), Cons(Num(b.day), TimeKey(b)));
    var a3, b3 := Cons(Num(a.day), TimeKey(a)), Cons(Num(b.day), TimeKey(b));
    assert Less(a3, b3) <==> a.day < b.day || (a.day == b.day && Less(TimeKey(a), TimeKey(b)));
    assert Less(a2, b2) <==> a.month < b.month || (a.month == b.month && Less(a3, b3));
    assert Less(InstantKey(a), InstantKey(b)) <==> a.year < b.year || (a.year == b.year && Less(a2, b2));
  }

  lemma YearsAgree(a: Instant, b: Instant)
    requires !Before(b, a)
    ensures a.year <= b.year
  {
    RangesOf(a);
    RangesOf(b);
  }

  function Two(n: int): string
    requires 0 <= n < 100
  {
    [Digit(n / 10), Digit(n % 10)]
  }

  /** Everything after the year: every field is padded to its full width. */
  function PrintRest(t: Instant): (r: string)
    ensures |r| == 23
  {
    RangesOf(t);
    ['-', Digit(t.month / 10), Digit(t.month % 10),
     '-', Digit(t.day / 10), Digit(t.day % 10),
     'T', Digit(t.hour / 10), Digit(t.hour % 10),
     ':', Digit(t.minute / 10), Digit(t.minute % 10),
     ':', Digit(t.second / 10), Digit(t.second % 10),
     '.', Digit(t.micro / 100_000), Digit(t.micro / 10_000 % 10), Digit(t.micro / 1000 % 10),
     Digit(t.micro / 100 % 10), Digit(t.micro / 10 % 10), Digit(t.micro % 10),
     'Z']
  }

  /**
   Whether `strftime` pads `%Y` to four digits. The interpreter and its C library
   fix this; every theorem holds for both.
   */
  const PADS_YEARS: bool

  function PrintYear(year: int): string
    requires 1 <= year <= 9999
  {
    if PADS_YEARS then Two(year / 100) + Two(year % 100) else PrintNat(year)
  }

  /** `strftime` with the one format that is used. */
  function PrintTimestamp(t: Instant): string {
    RangesOf(t);
    PrintYear(t.year) + PrintRest(t)
  }

  /** The instants whose year prints with four digits, which the reader asks for. */
  predicate YearSurvives(t: Instant) {
    PADS_YEARS || t.year >= 1000
  }

  function ReadTwo(s: string, i: nat): int
    requires i + 2 <= |s|
  {
    (s[i] as int - '0' as int) * 10 + (s[i + 1] as int - '0' as int)
  }

  const DIGIT_POSITIONS: set<nat> := {0, 1, 2, 3, 5, 6, 8, 9, 11, 12, 14, 15, 17, 18, 20, 21, 22, 23, 24, 25}

  predicate HasLayout(s: string) {
    && |s| == 27
    && s[4] == '-' && s[7] == '-' && s[10] == 'T' && s[13] == ':' && s[16] == ':' && s[19] == '.' && s[26] == 'Z'
    && forall k <- DIGIT_POSITIONS :: IsDigit(s[k])
  }

  /** `strptime` on the padded layout; the year must have exactly four digits. */
  function ReadTimestamp(s: string): Option<Instant> {
    if !HasLayout(s) then None
    else
      var t := InstantFields(
        ReadTwo(s, 0) * 100 + ReadTwo(s, 2), ReadTwo(s, 5), ReadTwo(s, 8), ReadTwo(s, 11), ReadTwo(s, 14),
            ReadTwo(s, 17),
        ReadTwo(s, 20) * 10_000 + ReadTwo(s, 22) * 100 + ReadTwo(s, 24));
      if ValidInstant(t) then Some(t) else None
  }

  /** `_parse_timestamp`: the instant must print as the very text it was read from. */
  function ParseTimestamp(s: string): Option<Instant> {
    match ReadTimestamp(s)
    case None => None
    case Some(t) => if PrintTimestamp(t) == s then Some(t) else None
  }

  lemma PrintNatLength(n: nat)
    requires n < 10_000
    ensures |PrintNat(n)| == if n < 10 then 1 else if n < 100 then 2 else if n < 1000 then 3 else 4
    ensures n >= 1000 ==> PrintNat(n) == Two(n / 100) + Two(n % 100)
  {
    if n >= 1000 {
      assert PrintNat(n) == PrintNat(n / 10) + [Digit(n % 10)];
      assert PrintNat(n / 10) == PrintNat(n / 100) + [Digit(n / 10 % 10)];
      assert PrintNat(n / 100) == PrintNat(n / 1000) + [Digit(n / 100 % 10)];
    }
  }

  lemma ReadTwoPrinted(s: string, i: nat, n: int)
    requires 0 <= n < 100 && i + 2 <= |s| && s[i] == Digit(n / 10) && s[i + 1] == Digit(n % 10)
    ensures ReadTwo(s, i) == n && IsDigit(s[i]) && IsDigit(s[i + 1])
  {
  }

  lemma DateAndTimeRoundTrip(t: Instant, s: string)
    requires |s| == 27 && forall i | 0 <= i < 23 :: s[4 + i] == PrintRest(t)[i]
    ensures ReadTwo(s, 5) == t.month && ReadTwo(s, 8) == t.day && ReadTwo(s, 11) == t.hour
    ensures ReadTwo(s, 14) == t.minute && ReadTwo(s, 17) == t.second
  {
    RangesOf(t);
    var r := PrintRest(t);
    assert s[5] == r[1] && s[6] == r[2] && s[8] == r[4] && s[9] == r[5] && s[11] == r[7] && s[12] == r[8];
    assert s[14] == r[10] && s[15] == r[11] && s[17] == r[13] && s[18] == r[14];
  }

  lemma SixDigits(n: nat)
    ensures (n / 100_000 * 10 + n / 10_000 % 10) * 10_000 + (n / 1000 % 10 * 10 + n / 100 % 10) * 100
            + (n / 10 % 10 * 10 + n % 10) == n
  {
    LastDigit(n, 10);
    LastDigit(n, 100);
    LastDigit(n, 1000);
    LastDigit(n, 10_000);
  }

  /** Dividing by ten splits off the last digit of a quotient. */
  lemma LastDigit(n: nat, k: nat)
    requires k > 0
    ensures n / k == n / (k * 10) * 10 + n / k % 10
  {
    QuotientOfQuotient(n, k, 10);
  }

  lemma QuotientOfQuotient(n: nat, k: nat, m: nat)
    requires k > 0 && m > 0
    ensures n / k / m == n / (k * m)
  {
    var q, r := n / k, n % k;
    var a, b := q / m, q % m;
    assert n == (a * m + b) * k + r == a * (k * m) + (b * k + r);
    TwoDigitBound(b, r, k, m);
    DividesAs(n, k * m, a, b * k + r);
  }

  lemma TwoDigitBound(b: nat, r: nat, k: nat, m: nat)
    requires b < m && r < k
    ensures 0 <= b * k + r < k * m
  {
    assert (m - b - 1) * k >= 0;
    assert (m - b - 1) * k == m * k - b * k - k;
  }

  lemma DividesAs(n: int, k: int, q: int, r: int)
    requires k > 0 && n == q * k + r && 0 <= r < k
    ensures n / k == q && n % k == r
  {
    var d := n / k - q;
    assert d * k == r - n % k;
    assert -k < d * k < k;
  }

  lemma MicrosRoundTrip(t: Instant, s: string)
    requires |s| == 27 && forall i | 0 <= i < 23 :: s[4 + i] == PrintRest(t)[i]
    ensures ReadTwo(s, 20) * 10_000 + ReadTwo(s, 22) * 100 + ReadTwo(s, 24) == t.micro
  {
    RangesOf(t);
    var r := PrintRest(t);
    assert s[20] == r[16] && s[21] == r[17] && s[22] == r[18] && s[23] == r[19] && s[24] == r[20] && s[25] == r[21];
    SixDigits(t.micro);
  }

  lemma SeparatorsArePrinted(t: Instant, s: string)
    requires |s| == 27 && forall i | 0 <= i < 23 :: s[4 + i] == PrintRest(t)[i]
    ensures s[4] == '-' && s[7] == '-' && s[10] == 'T' && s[13] == ':' && s[16] == ':' && s[19] == '.' && s[26] == 'Z'
  {
    var r := PrintRest(t);
    assert s[4 + 0] == r[0] && s[4 + 3] == r[3] && s[4 + 6] == r[6] && s[4 + 9] == r[9];
    assert s[4 + 12] == r[12] && s[4 + 15] == r[15] && s[4 + 22] == r[22];
  }

  lemma RestHasDigits(t: Instant, i: nat)
    requires i in {1, 2, 4, 5, 7, 8, 10, 11, 13, 14, 16, 17, 18, 19, 20, 21}
    ensures IsDigit(PrintRest(t)[i])
  {
    RangesOf(t);
  }

  lemma LayoutIsPrinted(t: Instant, s: string)
    requires |s| == 27 && forall i | 0 <= i < 4 :: IsDigit(s[i])
    requires forall i | 0 <= i < 23 :: s[4 + i] == PrintRest(t)[i]
    ensures HasLayout(s)
  {
    SeparatorsArePrinted(t, s);
    forall k | k in DIGIT_POSITIONS ensures IsDigit(s[k]) {
      if k >= 5 {
        RestHasDigits(t, k - 4);
        assert s[4 + (k - 4)] == PrintRest(t)[k - 4];
      }
    }
  }

  lemma PrintYearLength(t: Instant)
    ensures 1 <= t.year <= 9999
    ensures |PrintYear(t.year)| == 4 <==> YearSurvives(t)
    ensures YearSurvives(t) ==> PrintYear(t.year) == Two(t.year / 100) + Two(t.year % 100)
  {
    RangesOf(t);
    PrintNatLength(t.year);
  }

  lemma PaddedRoundTrip(t: Instant)
    requires YearSurvives(t)
    ensures ReadTimestamp(PrintTimestamp(t)) == Some(t)
  {
    RangesOf(t);
    var s := PrintTimestamp(t);
    PrintYearLength(t);
    ReadTwoPrinted(s, 0, t.year / 100);
    ReadTwoPrinted(s, 2, t.year % 100);
    DateAndTimeRoundTrip(t, s);
    MicrosRoundTrip(t, s);
    LayoutIsPrinted(t, s);
  }

  /**
   A timestamp is read from its own text and no other, and only when its year
   prints with four digits: where years are not padded, those before 1000 print
   short and are refused.
   */
  lemma TimestampExact(s: string, t: Instant)
    ensures ParseTimestamp(s) == Some(t) <==> s == PrintTimestamp(t) && YearSurvives(t)
  {
    PrintYearLength(t);
    if YearSurvives(t) {
      PaddedRoundTrip(t);
    } else {
      assert |PrintTimestamp(t)| == |PrintYear(t.year)| + 23;
    }
  }

  lemma TimestampTellsYear(t: Instant, t': Instant)
    requires PrintTimestamp(t) == PrintTimestamp(t') && YearSurvives(t')
    ensures YearSurvives(t)
  {
    PrintYearLength(t);
    PrintYearLength(t');
    assert |PrintTimestamp(t)| == |PrintYear(t.year)| + 23;
    assert |PrintTimestamp(t')| == |PrintYear(t'.year)| + 23;
  }
}
