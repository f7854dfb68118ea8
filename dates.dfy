/**
  Proleptic Gregorian date arithmetic as the ECMAScript Date object does it
  (ECMA-262, section 21.4.1: DayFromYear, MonthFromTime, DateFromTime,
  MakeDay, WeekDay). A date is a (year, month 0..11, day-of-month) triple; a
  day number counts days from 1970-01-01, which is day 0 and a Thursday.
  Time of day and time zones are not modelled.
*/
module DateMath {

  /** What getFullYear(), getMonth() and getDate() report. */
  datatype Date = Date(year: int, month: int, day: int)

  /** A (year, month) pair, month 0..11. */
  datatype YearMonth = YearMonth(year: int, month: int)

  predicate IsLeap(y: int) {
    y % 4 == 0 && (y % 100 != 0 || y % 400 == 0)
  }

  function DaysInYear(y: int): int {
    if IsLeap(y) then 366 else 365
  }

  /** A month has 28 to 31 days, and 29 exactly for February of a leap year. */
  function DaysInMonth(y: int, m: int): (r: int)
    requires 0 <= m < 12
    ensures 28 <= r <= 31
    ensures r == 29 <==> m == 1 && IsLeap(y)
  {
    if m == 1 then (if IsLeap(y) then 29 else 28)
    else if m == 3 || m == 5 || m == 8 || m == 10 then 30
    else 31
  }

  /** The day number of January 1 of year y (ECMA-262 DayFromYear). */
  function DayFromYear(y: int): int {
    365 * (y - 1970) + (y - 1969) / 4 - (y - 1901) / 100 + (y - 1601) / 400
  }

  /** Days of year y before the first of month m (the MonthFromTime thresholds). */
  function DaysBeforeMonth(y: int, m: int): int
    requires 0 <= m < 12
  {
    [0, 31, 59, 90, 120, 151, 181, 212, 243, 273, 304, 334][m]
      + (if IsLeap(y) && m >= 2 then 1 else 0)
  }

  function DayNumber(y: int, m: int, d: int): int
    requires 0 <= m < 12
  {
    DayFromYear(y) + DaysBeforeMonth(y, m) + d - 1
  }

  function DayNumberOf(dt: Date): int
    requires 0 <= dt.month < 12
  {
    DayNumber(dt.year, dt.month, dt.day)
  }

  predicate ValidDate(dt: Date) {
    0 <= dt.month < 12 && 1 <= dt.day <= DaysInMonth(dt.year, dt.month)
  }

  function NextMonth(y: int, m: int): YearMonth
    requires 0 <= m < 12
  {
    if m == 11 then YearMonth(y + 1, 0) else YearMonth(y, m + 1)
  }

  function PrevMonth(y: int, m: int): YearMonth
    requires 0 <= m < 12
  {
    if m == 0 then YearMonth(y - 1, 11) else YearMonth(y, m - 1)
  }

  // Each floor term of DayFromYear grows by one exactly at a multiple of its
  // divisor, and the divisors nest.

  lemma FourYearStep(y: int)
    ensures (y - 1968) / 4 == (y - 1969) / 4 + (if y % 4 == 0 then 1 else 0)
  {
    var q, r := (y - 1969) / 4, (y - 1969) % 4;
    assert y - 1969 == 4 * q + r && 0 <= r < 4;
    if r == 3 {
      assert y - 1968 == 4 * (q + 1) && y == 4 * (q + 493);
    } else {
      assert y - 1968 == 4 * q + (r + 1) && y == 4 * (q + 492) + (r + 1);
    }
  }

  lemma CenturyStep(y: int)
    ensures (y - 1900) / 100 == (y - 1901) / 100 + (if y % 100 == 0 then 1 else 0)
  {
    var q, r := (y - 1901) / 100, (y - 1901) % 100;
    assert y - 1901 == 100 * q + r && 0 <= r < 100;
    if r == 99 {
      assert y - 1900 == 100 * (q + 1) && y == 100 * (q + 20);
    } else {
      assert y - 1900 == 100 * q + (r + 1) && y == 100 * (q + 19) + (r + 1);
    }
  }

  lemma FourCenturyStep(y: int)
    ensures (y - 1600) / 400 == (y - 1601) / 400 + (if y % 400 == 0 then 1 else 0)
  {
    var q, r := (y - 1601) / 400, (y - 1601) % 400;
    assert y - 1601 == 400 * q + r && 0 <= r < 400;
    if r == 399 {
      assert y - 1600 == 400 * (q + 1) && y == 400 * (q + 5);
    } else {
      assert y - 1600 == 400 * q + (r + 1) && y == 400 * (q + 4) + (r + 1);
    }
  }

  lemma CenturyOfFourCenturies(y: int)
    requires y % 400 == 0
    ensures y % 100 == 0
  {
    var k := 4 * (y / 400);
    assert y == 100 * k;
  }

  lemma LeapOfCentury(y: int)
    requires y % 100 == 0
    ensures y % 4 == 0
  {
    var k := 25 * (y / 100);
    assert y == 4 * k;
  }

  /** The closed form of DayFromYear agrees with the leap-year rule: a year
      has 366 days exactly when it is a leap year. */
  lemma {:induction false} YearLength(y: int)
    ensures DayFromYear(y + 1) == DayFromYear(y) + DaysInYear(y)
  {
    var i4 := if y % 4 == 0 then 1 else 0;
    var i100 := if y % 100 == 0 then 1 else 0;
    var i400 := if y % 400 == 0 then 1 else 0;
    assert DayFromYear(y + 1) == DayFromYear(y) + 365 + i4 - i100 + i400 by {
      FourYearStep(y);
      CenturyStep(y);
      FourCenturyStep(y);
    }
    assert DaysInYear(y) == 365 + i4 - i100 + i400 by {
      if y % 400 == 0 {
        CenturyOfFourCenturies(y);
      }
      if y % 100 == 0 {
        LeapOfCentury(y);
      }
    }
  }

  /** The first of the next month is DaysInMonth days after the first of this
      one, so DaysInMonth is the month length of the ECMA day count. */
  lemma MonthStep(y: int, m: int)
    requires 0 <= m < 12
    ensures var n := NextMonth(y, m);
      DayNumber(n.year, n.month, 1) == DayNumber(y, m, 1) + DaysInMonth(y, m)
  {
    if m == 11 {
      YearLength(y);
    }
  }

  lemma PrevNextInverse(y: int, m: int)
    requires 0 <= m < 12
    ensures var p := PrevMonth(y, m); NextMonth(p.year, p.month) == YearMonth(y, m)
    ensures var n := NextMonth(y, m); PrevMonth(n.year, n.month) == YearMonth(y, m)
  {
  }

  /**
    Carries an out-of-range day-of-month into the neighbouring months: the
    result is a valid date whose day number is that of day d counted from the
    first of month m of year y, which is what MakeDay followed by
    YearFromTime/MonthFromTime/DateFromTime computes.
  */
  function Normalize(y: int, m: int, d: int): (r: Date)
    requires 0 <= m < 12
    ensures ValidDate(r)
    decreases if d < 1 then 1 - d else 0, if d < 1 then 0 else d
  {
    if d < 1 then
      var p := PrevMonth(y, m);
      Normalize(p.year, p.month, d + DaysInMonth(p.year, p.month))
    else if d <= DaysInMonth(y, m) then
      Date(y, m, d)
    else
      var n := NextMonth(y, m);
      Normalize(n.year, n.month, d - DaysInMonth(y, m))
  }

  lemma {:induction false} NormalizeDayNumber(y: int, m: int, d: int)
    requires 0 <= m < 12
    ensures DayNumberOf(Normalize(y, m, d)) == DayNumber(y, m, 1) + d - 1
    decreases if d < 1 then 1 - d else 0, if d < 1 then 0 else d
  {
    if d < 1 {
      var p := PrevMonth(y, m);
      MonthStep(p.year, p.month);
      PrevNextInverse(y, m);
      NormalizeDayNumber(p.year, p.month, d + DaysInMonth(p.year, p.month));
    } else if d > DaysInMonth(y, m) {
      var n := NextMonth(y, m);
      MonthStep(y, m);
      NormalizeDayNumber(n.year, n.month, d - DaysInMonth(y, m));
    }
  }

  /** ECMA-262 MakeDay(y, m, d) read back as a date: the month is first
      folded into the year (floor division, the remainder taken modulo 12),
      then the day is counted from the first of that month. */
  function DateOfMakeDay(y: int, m: int, d: int): (r: Date)
    ensures ValidDate(r)
  {
    Normalize(y + m / 12, m % 12, d)
  }

  lemma DateOfMakeDayNumber(y: int, m: int, d: int)
    ensures DayNumberOf(DateOfMakeDay(y, m, d)) == DayNumber(y + m / 12, m % 12, 1) + d - 1
  {
    NormalizeDayNumber(y + m / 12, m % 12, d);
  }

  /** The year `new Date(year, month, day)` uses: 0..99 stand for 1900..1999. */
  function ConstructorYear(y: int): (r: int)
    ensures !(0 <= r <= 99)
    ensures r == y || r == y + 1900
    ensures r == y <==> !(0 <= y <= 99)
  {
    if 0 <= y <= 99 then 1900 + y else y
  }

  /** Date.prototype.getDay: 0 is Sunday, 6 is Saturday. */
  function WeekDay(dt: Date): (r: int)
    requires 0 <= dt.month < 12
    ensures 0 <= r < 7
  {
    (DayNumberOf(dt) + 4) % 7
  }

  /** Date.prototype.setMonth(m) on the date dt: always a valid date. */
  function SetMonth(dt: Date, m: int): (r: Date)
    ensures ValidDate(r)
  {
    DateOfMakeDay(dt.year, m, dt.day)
  }

  /** Date.prototype.setFullYear(y) on the date dt: always a valid date. */
  function SetFullYear(dt: Date, y: int): (r: Date)
    requires 0 <= dt.month < 12
    ensures ValidDate(r)
  {
    DateOfMakeDay(y, dt.month, dt.day)
  }

  // ---------------------------------------------------------------------
  // The day count is one-to-one on valid dates, so Normalize's result is the
  // only date with its day number.

  lemma {:induction false} DayFromYearMonotone(a: int, b: int)
    requires a <= b
    ensures DayFromYear(a) + 365 * (b - a) <= DayFromYear(b)
    decreases b - a
  {
    if a < b {
      DayFromYearMonotone(a, b - 1);
      YearLength(b - 1);
    }
  }

  lemma DayNumberWithinYear(dt: Date)
    requires ValidDate(dt)
    ensures DayFromYear(dt.year) <= DayNumberOf(dt) < DayFromYear(dt.year + 1)
  {
    YearLength(dt.year);
  }

  lemma MonthsOrdered(y: int, a: int, b: int)
    requires 0 <= a < b < 12
    ensures DaysBeforeMonth(y, a) + DaysInMonth(y, a) <= DaysBeforeMonth(y, b)
  {
  }

  /** A day number lies in one year only. */
  lemma YearOfDay(y1: int, y2: int, n: int)
    requires DayFromYear(y1) <= n < DayFromYear(y1 + 1)
    requires DayFromYear(y2) <= n < DayFromYear(y2 + 1)
    ensures y1 == y2
  {
    if y1 < y2 {
      DayFromYearMonotone(y1 + 1, y2);
    } else if y2 < y1 {
      DayFromYearMonotone(y2 + 1, y1);
    }
  }

  lemma DayNumberInjective(a: Date, b: Date)
    requires ValidDate(a) && ValidDate(b)
    requires DayNumberOf(a) == DayNumberOf(b)
    ensures a == b
  {
    assert a.year == b.year by {
      DayNumberWithinYear(a);
      DayNumberWithinYear(b);
      YearOfDay(a.year, b.year, DayNumberOf(a));
    }
    assert a.month == b.month by {
      if a.month < b.month {
        MonthsOrdered(a.year, a.month, b.month);
      } else if b.month < a.month {
        MonthsOrdered(a.year, b.month, a.month);
      }
    }
  }

  /** DateOfMakeDay(y, m, d) is the one valid date at MakeDay(y, m, d). */
  lemma DateOfMakeDayUnique(y: int, m: int, d: int, dt: Date)
    requires ValidDate(dt)
    requires DayNumberOf(dt) == DayNumber(y + m / 12, m % 12, 1) + d - 1
    ensures DateOfMakeDay(y, m, d) == dt
  {
    DateOfMakeDayNumber(y, m, d);
    DayNumberInjective(DateOfMakeDay(y, m, d), dt);
  }

  /** A date that is already valid comes back unchanged. */
  lemma MakeDayKeepsValid(dt: Date)
    requires ValidDate(dt)
    ensures DateOfMakeDay(dt.year, dt.month, dt.day) == dt
  {
    assert dt.month / 12 == 0 && dt.month % 12 == dt.month;
  }

  // ---------------------------------------------------------------------
  // Month lengths and weekdays.

  /** MakeDay(y, m + 1, 0) is the last day of month m, so its day is the
      month's length. `new Date(y, m + 1, 0)` first maps the year through
      ConstructorYear. */
  lemma LastDayOfMonth(y: int, m: int)
    requires 0 <= m < 12
    ensures DateOfMakeDay(y, m + 1, 0) == Date(y, m, DaysInMonth(y, m))
  {
    var n := NextMonth(y, m);
    MonthStep(y, m);
    assert y + (m + 1) / 12 == n.year && (m + 1) % 12 == n.month;
    DateOfMakeDayUnique(y, m + 1, 0, Date(y, m, DaysInMonth(y, m)));
  }

  lemma LeapYearExamples()
    ensures DaysInMonth(2024, 1) == 29 && DaysInMonth(2023, 1) == 28
    ensures DaysInMonth(2000, 1) == 29 && DaysInMonth(1900, 1) == 28
  {
  }

  /** The first of the next month falls DaysInMonth weekdays later. */
  lemma FirstWeekDayOfNextMonth(y: int, m: int)
    requires 0 <= m < 12
    ensures var n := NextMonth(y, m);
      WeekDay(Date(n.year, n.month, 1)) == (WeekDay(Date(y, m, 1)) + DaysInMonth(y, m)) % 7
  {
    MonthStep(y, m);
    ShiftModSeven(DayNumber(y, m, 1) + 4, DaysInMonth(y, m));
  }

  lemma ShiftModSeven(a: int, k: int)
    ensures (a + k) % 7 == (a % 7 + k) % 7
  {
    var q := a / 7;
    assert a + k == 7 * q + (a % 7 + k);
  }

  lemma EpochIsThursday()
    ensures DayNumberOf(Date(1970, 0, 1)) == 0 && WeekDay(Date(1970, 0, 1)) == 4
  {
    assert DayFromYear(1970) == 0;
    assert DaysBeforeMonth(1970, 0) == 0;
  }

  // ---------------------------------------------------------------------
  // setMonth and setFullYear on a valid date.

  /**
    setMonth(m) lands on month m (folded into the year) keeping the day when
    that month is long enough; otherwise the surplus days spill into the
    month after it.
  */
  lemma SetMonthOutcome(dt: Date, m: int)
    requires 1 <= dt.day <= 31
    ensures var t := YearMonth(dt.year + m / 12, m % 12);
      var n := NextMonth(t.year, t.month);
      SetMonth(dt, m) ==
        if dt.day <= DaysInMonth(t.year, t.month) then Date(t.year, t.month, dt.day)
        else Date(n.year, n.month, dt.day - DaysInMonth(t.year, t.month))
  {
    var t := YearMonth(dt.year + m / 12, m % 12);
    var n := NextMonth(t.year, t.month);
    if dt.day > DaysInMonth(t.year, t.month) {
      MonthStep(t.year, t.month);
      DateOfMakeDayUnique(dt.year, m, dt.day, Date(n.year, n.month, dt.day - DaysInMonth(t.year, t.month)));
    }
  }

  /** "Next" from a day that every month has: one month on, same day. */
  lemma NextKeepsDay(dt: Date)
    requires ValidDate(dt) && dt.day <= 28
    ensures SetMonth(dt, dt.month + 1) ==
      Date(if dt.month == 11 then dt.year + 1 else dt.year, (dt.month + 1) % 12, dt.day)
  {
    SetMonthOutcome(dt, dt.month + 1);
  }

  /** "Prev" from a day that every month has: one month back, same day. */
  lemma PrevKeepsDay(dt: Date)
    requires ValidDate(dt) && dt.day <= 28
    ensures SetMonth(dt, dt.month - 1) ==
      Date(if dt.month == 0 then dt.year - 1 else dt.year, (dt.month - 1) % 12, dt.day)
  {
    SetMonthOutcome(dt, dt.month - 1);
  }

  /** From a day that every month has, "prev" then "next" comes back to the
      same date. */
  lemma PrevThenNext(dt: Date)
    requires ValidDate(dt) && dt.day <= 28
    ensures var p := SetMonth(dt, dt.month - 1); SetMonth(p, p.month + 1) == dt
  {
    PrevKeepsDay(dt);
    NextKeepsDay(SetMonth(dt, dt.month - 1));
  }

  /** ... and so does "next" then "prev". */
  lemma NextThenPrev(dt: Date)
    requires ValidDate(dt) && dt.day <= 28
    ensures var n := SetMonth(dt, dt.month + 1); SetMonth(n, n.month - 1) == dt
  {
    NextKeepsDay(dt);
    PrevKeepsDay(SetMonth(dt, dt.month + 1));
  }

  /** From March 31 the round trip fails: "prev" spills over into March 3
      (March 2 in a leap year), and "next" then goes on to April. */
  lemma MarchThirtyFirstRoundTrip(y: int)
    ensures var p := SetMonth(Date(y, 2, 31), 1);
      p == Date(y, 2, if IsLeap(y) then 2 else 3)
      && SetMonth(p, p.month + 1) == Date(y, 3, p.day)
      && SetMonth(p, p.month + 1) != Date(y, 2, 31)
  {
    SetMonthOutcome(Date(y, 2, 31), 1);
    var p := SetMonth(Date(y, 2, 31), 1);
    SetMonthOutcome(p, p.month + 1);
  }

  /** January 31 plus "next" is March 3, or March 2 in a leap year. */
  lemma JanuaryThirtyFirstNext(y: int)
    ensures SetMonth(Date(y, 0, 31), 1) == if IsLeap(y) then Date(y, 2, 2) else Date(y, 2, 3)
  {
    SetMonthOutcome(Date(y, 0, 31), 1);
  }

  /** setFullYear keeps month and day, except that February 29 moved to a
      common year becomes March 1. */
  lemma SetFullYearOutcome(dt: Date, y: int)
    requires ValidDate(dt)
    ensures SetFullYear(dt, y) ==
      if dt.month == 1 && dt.day == 29 && !IsLeap(y) then Date(y, 2, 1)
      else Date(y, dt.month, dt.day)
  {
    SetMonthOutcome(Date(y, dt.month, dt.day), dt.month);
  }

  /** The date after k clicks on "next" (each one setMonth(getMonth() + 1)). */
  function NextClicks(dt: Date, k: nat): Date
    decreases k
  {
    if k == 0 then dt else NextClicks(SetMonth(dt, dt.month + 1), k - 1)
  }

  /** The date after k clicks on "prev" (each one setMonth(getMonth() - 1)). */
  function PrevClicks(dt: Date, k: nat): Date
    decreases k
  {
    if k == 0 then dt else PrevClicks(SetMonth(dt, dt.month - 1), k - 1)
  }

  lemma NextClickStep(dt: Date, k: nat)
    requires ValidDate(dt) && dt.day <= 28 && k > 0
    ensures var n := NextMonth(dt.year, dt.month);
      NextClicks(dt, k) == NextClicks(Date(n.year, n.month, dt.day), k - 1)
  {
    NextKeepsDay(dt);
  }

  /** k clicks on "next" from a day that every month has move the month
      index (12 * year + month) k months on and keep the day. */
  lemma {:induction false} NextClicksIndex(dt: Date, k: nat)
    requires ValidDate(dt) && dt.day <= 28
    ensures var r := NextClicks(dt, k);
      ValidDate(r) && 12 * r.year + r.month == 12 * dt.year + dt.month + k && r.day == dt.day
    decreases k
  {
    if k > 0 {
      var n := NextMonth(dt.year, dt.month);
      NextClickStep(dt, k);
      NextClicksIndex(Date(n.year, n.month, dt.day), k - 1);
    }
  }

  lemma PrevClickStep(dt: Date, k: nat)
    requires ValidDate(dt) && dt.day <= 28 && k > 0
    ensures var p := PrevMonth(dt.year, dt.month);
      PrevClicks(dt, k) == PrevClicks(Date(p.year, p.month, dt.day), k - 1)
  {
    PrevKeepsDay(dt);
  }

  /** k clicks on "prev" move the month index k months back and keep the day. */
  lemma {:induction false} PrevClicksIndex(dt: Date, k: nat)
    requires ValidDate(dt) && dt.day <= 28
    ensures var r := PrevClicks(dt, k);
      ValidDate(r) && 12 * r.year + r.month == 12 * dt.year + dt.month - k && r.day == dt.day
    decreases k
  {
    if k > 0 {
      var p := PrevMonth(dt.year, dt.month);
      PrevClickStep(dt, k);
      PrevClicksIndex(Date(p.year, p.month, dt.day), k - 1);
    }
  }

  /** Two months 0..11 with the same month index are the same month. */
  lemma SameMonthIndex(y1: int, m1: int, y2: int, m2: int)
    requires 0 <= m1 < 12 && 0 <= m2 < 12
    requires 12 * y1 + m1 == 12 * y2 + m2
    ensures y1 == y2 && m1 == m2
  {
  }

  /** Every twelve "next" clicks reach the same month of the next year, every
      twelve "prev" clicks the same month of the previous year. */
  lemma WholeYearsOfClicks(dt: Date, n: nat)
    requires ValidDate(dt) && dt.day <= 28
    ensures NextClicks(dt, 12 * n) == Date(dt.year + n, dt.month, dt.day)
    ensures PrevClicks(dt, 12 * n) == Date(dt.year - n, dt.month, dt.day)
  {
    NextClicksIndex(dt, 12 * n);
    var r := NextClicks(dt, 12 * n);
    SameMonthIndex(r.year, r.month, dt.year + n, dt.month);
    PrevClicksIndex(dt, 12 * n);
    var s := PrevClicks(dt, 12 * n);
    SameMonthIndex(s.year, s.month, dt.year - n, dt.month);
  }
}
