/** The time between two instants, as `datetime` subtraction gives it. */
module Elapsed {
  import opened Order
  import opened Timestamp

  function DaysBeforeYear(year: int): int
    requires year >= 1
  {
    var y := year - 1;
    y * 365 + y / 4 - y / 100 + y / 400
  }

  function DaysBeforeMonth(year: int, month: int): int
    requires 1 <= month <= 12
    decreases month
  {
    if month == 1 then 0 else DaysBeforeMonth(year, month - 1) + DaysInMonth(year, month - 1)
  }

  /** `date.toordinal`. */
  function DayNumber(t: Instant): int {
    RangesOf(t);
    DaysBeforeYear(t.year) + DaysBeforeMonth(t.year, t.month) + t.day
  }

  function MicrosOfDay(t: Instant): int {
    ((t.hour * 60 + t.minute) * 60 + t.second) * 1_000_000 + t.micro
  }

  const DAY_MICROS := 86_400_000_000

  /** `finished - started`, in microseconds. */
  function Microseconds(started: Instant, finished: Instant): int {
    (DayNumber(finished) - DayNumber(started)) * DAY_MICROS + MicrosOfDay(finished) - MicrosOfDay(started)
  }

  lemma {:induction false} MonthsAscend(year: int, m: int, n: int)
    requires 1 <= m < n <= 12
    ensures DaysBeforeMonth(year, m) + DaysInMonth(year, m) <= DaysBeforeMonth(year, n)
    decreases n
  {
    if m < n - 1 {
      MonthsAscend(year, m, n - 1);
    }
  }

  lemma DaysOfYear(year: int)
    ensures DaysBeforeMonth(year, 12) + DaysInMonth(year, 12) == if LeapYear(year) then 366 else 365
  {
    assert DaysBeforeMonth(year, 3) == 31 + DaysInMonth(year, 2);
    assert DaysBeforeMonth(year, 6) == DaysBeforeMonth(year, 3) + 31 + 30 + 31;
    assert DaysBeforeMonth(year, 9) == DaysBeforeMonth(year, 6) + 30 + 31 + 31;
    assert DaysBeforeMonth(year, 12) == DaysBeforeMonth(year, 9) + 30 + 31 + 30;
  }

  lemma QuotientStep(y: nat, k: int)
    requires k > 1
    ensures (y + 1) / k == y / k + if (y + 1) % k == 0 then 1 else 0
  {
    var q, r := y / k, y % k;
    assert y + 1 == q * k + (r + 1);
    if r + 1 == k {
      assert y + 1 == (q + 1) * k;
      DividesAs(y + 1, k, q + 1, 0);
    } else {
      DividesAs(y + 1, k, q, r + 1);
    }
  }

  lemma MultipleOfFactor(n: nat, k: int, factor: int)
    requires k > 1 && factor > 1
    ensures n % (k * factor) == 0 ==> n % k == 0
  {
    if n % (k * factor) == 0 {
      var q := n / (k * factor);
      assert n == (q * factor) * k;
      DividesAs(n, k, q * factor, 0);
    }
  }

  lemma NextYear(year: int)
    requires year >= 1
    ensures DaysBeforeYear(year + 1) == DaysBeforeYear(year) + if LeapYear(year) then 366 else 365
  {
    QuotientStep(year - 1, 4);
    QuotientStep(year - 1, 100);
    QuotientStep(year - 1, 400);
    MultipleOfFactor(year, 100, 4);
    MultipleOfFactor(year, 4, 25);
  }

  lemma {:induction false} YearsAscend(y: int, z: int)
    requires 1 <= y < z
    ensures DaysBeforeYear(y) + (if LeapYear(y) then 366 else 365) <= DaysBeforeYear(z)
    decreases z
  {
    NextYear(z - 1);
    if y < z - 1 {
      YearsAscend(y, z - 1);
    }
  }

  lemma EarlierDate(a: Instant, b: Instant)
    requires a.year < b.year || (a.year == b.year && (a.month < b.month || (a.month == b.month && a.day < b.day)))
    ensures DayNumber(a) < DayNumber(b)
  {
    RangesOf(a);
    RangesOf(b);
    assert InRange(a, Day) && InRange(b, Day);
    if a.year == b.year {
      if a.month < b.month {
        MonthsAscend(a.year, a.month, b.month);
      }
    } else {
      YearsAscend(a.year, b.year);
      DaysOfYear(a.year);
      if a.month < 12 {
        MonthsAscend(a.year, a.month, 12);
      }
      MonthStarts(b.year, b.month);
    }
  }

  lemma MonthStarts(year: int, month: int)
    requires 1 <= month <= 12
    ensures DaysBeforeMonth(year, month) >= 0
  {
    if month > 1 {
      MonthsAscend(year, 1, month);
    }
  }

  /** No time has passed exactly between equal instants, and negative time only from a later one. */
  lemma ElapsedExact(started: Instant, finished: Instant)
    ensures Microseconds(started, finished) < 0 <==> Before(finished, started)
    ensures Microseconds(started, finished) == 0 <==> started == finished
  {
    Forward(started, finished);
    Forward(finished, started);
    BeforeIsTotal(started, finished);
  }

  lemma BeforeIsTotal(a: Instant, b: Instant)
    ensures Before(a, b) || a == b || Before(b, a)
  {
    BeforeIsLexicographic(a, b);
    BeforeIsLexicographic(b, a);
    LessTotal(InstantKey(a), InstantKey(b));
  }

  lemma Forward(a: Instant, b: Instant)
    ensures Before(a, b) ==> Microseconds(a, b) > 0
  {
    RangesOf(a);
    RangesOf(b);
    if Before(a, b) && (a.year, a.month, a.day) != (b.year, b.month, b.day) {
      EarlierDate(a, b);
    }
  }

  // ------------------------------------------------------- one microsecond

  /** No instant lies between the two. */
  ghost predicate Adjacent(a: Instant, b: Instant) {
    Before(a, b) && forall c: Instant :: !(Before(a, c) && Before(c, b))
  }

  /** The time of day one microsecond later, on the same day, and whether the day is over. */
  function NextMicro(t: Instant): (InstantFields, bool) {
    if t.micro < 999_999 then (t.(micro := t.micro + 1), false)
    else if t.second < 59 then (t.(micro := 0, second := t.second + 1), false)
    else if t.minute < 59 then (t.(micro := 0, second := 0, minute := t.minute + 1), false)
    else if t.hour < 23 then (t.(micro := 0, second := 0, minute := 0, hour := t.hour + 1), false)
    else (t.(micro := 0, second := 0, minute := 0, hour := 0), true)
  }

  function NextDay(t: InstantFields): InstantFields {
    if t.day < DaysInMonth(t.year, t.month) then t.(day := t.day + 1)
    else if t.month < 12 then t.(day := 1, month := t.month + 1)
    else t.(day := 1, month := 1, year := t.year + 1)
  }

  function Next(t: Instant): InstantFields {
    if NextMicro(t).1 then NextDay(NextMicro(t).0) else NextMicro(t).0
  }

  lemma NextMicroIsValid(t: Instant)
    ensures ValidInstant(NextMicro(t).0)
    ensures var (n, carry) := NextMicro(t);
            MicrosOfDay(n) == MicrosOfDay(t) + 1 - (if carry then DAY_MICROS else 0)
  {
    RangesOf(t);
    assert InRange(t, Day);
    var n := NextMicro(t).0;
    forall u: Unit ensures InRange(n, u) {
      assert InRange(t, u);
    }
  }

  lemma NextDayIsValid(t: Instant)
    requires t.year < 9999 || t.month < 12 || t.day < 31
    ensures ValidInstant(NextDay(t))
    ensures DayNumber(NextDay(t)) == DayNumber(t) + 1 && MicrosOfDay(NextDay(t)) == MicrosOfDay(t)
  {
    RangesOf(t);
    assert InRange(t, Day);
    var n := NextDay(t);
    forall u: Unit ensures InRange(n, u) {
      assert InRange(t, u);
    }
    if t.day == DaysInMonth(t.year, t.month) && t.month == 12 {
      NextYear(t.year);
      DaysOfYear(t.year);
    }
  }

  lemma NextIsNext(t: Instant, later: Instant)
    requires Before(t, later)
    ensures ValidInstant(Next(t)) && Microseconds(t, Next(t)) == 1
  {
    NextMicroIsValid(t);
    if NextMicro(t).1 {
      RangesOf(t);
      RangesOf(later);
      NextDayIsValid(NextMicro(t).0);
    }
  }

  lemma ElapsedAdds(a: Instant, b: Instant, c: Instant)
    ensures Microseconds(a, b) + Microseconds(b, c) == Microseconds(a, c)
  {
  }

  /**
   The unit of a duration: two instants are one microsecond apart exactly when no instant lies
   between them. With `ElapsedAdds` this fixes every duration, across ends of months and leap years.
   */
  lemma OneMicrosecondExact(a: Instant, b: Instant)
    ensures Microseconds(a, b) == 1 <==> Adjacent(a, b)
  {
    ElapsedExact(a, b);
    ElapsedExact(b, a);
    if Microseconds(a, b) == 1 {
      forall c: Instant ensures !(Before(a, c) && Before(c, b)) {
        ElapsedExact(c, a);
        ElapsedExact(b, c);
        ElapsedAdds(a, c, b);
      }
    }
    if Adjacent(a, b) {
      NextIsNext(a, b);
      var n: Instant := Next(a);
      ElapsedExact(n, a);
      ElapsedExact(b, n);
      ElapsedExact(n, b);
      ElapsedAdds(a, n, b);
    }
  }
}
