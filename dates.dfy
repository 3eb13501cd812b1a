/**
 * The part of .NET's System.DateTime the calendar uses: the proleptic
 * Gregorian calendar over the years 1..9999, a time of day counted in
 * 100-nanosecond ticks, the three-argument constructor, DaysInMonth,
 * DayOfWeek and the comparison operators.
 */
module Dates {
  import opened Text

  const TICKS_PER_DAY: int := 864_000_000_000

  /** A DateTime value: a calendar date plus the ticks elapsed since its midnight. */
  datatype DateTime = DateTime(year: int, month: int, day: int, tick: int)

  predicate IsLeapYear(y: int) {
    y % 4 == 0 && (y % 100 != 0 || y % 400 == 0)
  }

  predicate IsValidYear(y: int) {
    1 <= y <= 9999
  }

  /** DateTime.DaysInMonth; it throws for a month outside 1..12 or a year outside 1..9999. */
  function DaysInMonth(y: int, m: int): (n: int)
    requires IsValidYear(y) && 1 <= m <= 12
    ensures 28 <= n <= 31
    ensures n < 30 <==> m == 2
    ensures m == 2 ==> (n == 29 <==> IsLeapYear(y))
  {
    if m == 2 then (if IsLeapYear(y) then 29 else 28)
    else if m == 4 || m == 6 || m == 9 || m == 11 then 30
    else 31
  }

  function DaysInYear(y: int): int {
    if IsLeapYear(y) then 366 else 365
  }

  predicate IsValidDate(y: int, m: int, d: int) {
    IsValidYear(y) && 1 <= m <= 12 && 1 <= d <= DaysInMonth(y, m)
  }

  predicate IsValidDateTime(t: DateTime) {
    IsValidDate(t.year, t.month, t.day) && 0 <= t.tick < TICKS_PER_DAY
  }

  function Midnight(y: int, m: int, d: int): DateTime {
    DateTime(y, m, d, 0)
  }

  /** The date part of a DateTime (DateTime.Date). */
  function DateOf(t: DateTime): DateTime {
    Midnight(t.year, t.month, t.day)
  }

  /** DateTime.MinValue, also default(DateTime). */
  const MIN_VALUE: DateTime := DateTime(1, 1, 1, 0)

  /** DateTime.MaxValue: the last tick of 9999-12-31. */
  const MAX_VALUE: DateTime := DateTime(9999, 12, 31, TICKS_PER_DAY - 1)

  /**
   * new DateTime(year, month, day): midnight of that date, or None for the
   * ArgumentOutOfRangeException thrown when the three do not name a date.
   */
  function MakeDate(y: int, m: int, d: int): (r: Option<DateTime>)
    ensures r.Some? <==> IsValidDate(y, m, d)
    ensures r.Some? ==> IsValidDateTime(r.value) && r.value.tick == 0
    ensures r.Some? ==> r.value.year == y && r.value.month == m && r.value.day == d
  {
    if IsValidDate(y, m, d) then Some(Midnight(y, m, d)) else None
  }

  /** The operator < on DateTime: earlier date, or same date and earlier time of day. */
  predicate Less(a: DateTime, b: DateTime)
    ensures Less(a, b) ==> a != b && a.year <= b.year
  {
    || a.year < b.year
    || (a.year == b.year && a.month < b.month)
    || (a.year == b.year && a.month == b.month && a.day < b.day)
    || (a.year == b.year && a.month == b.month && a.day == b.day && a.tick < b.tick)
  }

  predicate LessEq(a: DateTime, b: DateTime)
    ensures a == b ==> LessEq(a, b)
    ensures LessEq(a, b) ==> a.year <= b.year
  {
    !Less(b, a)
  }

  // ---------------------------------------------------------------------
  // Day numbers: the days elapsed since 0001-01-01, as DateTime counts them

  function DaysBeforeYear(y: int): int
    requires IsValidYear(y)
  {
    365 * (y - 1) + (y - 1) / 4 - (y - 1) / 100 + (y - 1) / 400
  }

  function DaysBeforeMonth(y: int, m: int): (n: int)
    requires IsValidYear(y) && 1 <= m <= 12
    ensures 28 * (m - 1) <= n <= 31 * (m - 1)
  {
    if m == 1 then 0 else DaysBeforeMonth(y, m - 1) + DaysInMonth(y, m - 1)
  }

  function DayNumber(y: int, m: int, d: int): int
    requires IsValidDate(y, m, d)
  {
    DaysBeforeYear(y) + DaysBeforeMonth(y, m) + d - 1
  }

  /** DateTime.Ticks: 100-nanosecond ticks since 0001-01-01 00:00. */
  function Ticks(t: DateTime): int
    requires IsValidDateTime(t)
  {
    DayNumber(t.year, t.month, t.day) * TICKS_PER_DAY + t.tick
  }

  /** DateTime.DayOfWeek as the enum's number: 0 is Sunday; 0001-01-01 was a Monday. */
  function DayOfWeek(y: int, m: int, d: int): (w: int)
    requires IsValidDate(y, m, d)
    ensures 0 <= w < 7
  {
    (DayNumber(y, m, d) + 1) % 7
  }

  /** The DayOfWeek enum member names, which Convert.ToString yields whatever the culture. */
  function DayOfWeekName(w: int): (r: string)
    requires 0 <= w < 7
    ensures 6 <= |r| <= 9 && 'A' <= r[0] <= 'Z'
  {
    ["Sunday", "Monday", "Tuesday", "Wednesday", "Thursday", "Friday", "Saturday"][w]
  }

  /** The seven enum member names are distinct, so a day's full name determines its weekday. */
  lemma DayOfWeekNameInjective(a: int, b: int)
    requires 0 <= a < 7 && 0 <= b < 7
    ensures DayOfWeekName(a) == DayOfWeekName(b) <==> a == b
  {
    if a != b {
      var na, nb := DayOfWeekName(a), DayOfWeekName(b);
      if |na| == |nb| {
        assert na[0] != nb[0];
      }
    }
  }

  /** The calendar date after (y, m, d). */
  function NextDate(y: int, m: int, d: int): (r: DateTime)
    requires IsValidDate(y, m, d) && (y, m, d) != (9999, 12, 31)
    ensures IsValidDate(r.year, r.month, r.day) && r.tick == 0
    ensures Less(Midnight(y, m, d), r)
  {
    if d < DaysInMonth(y, m) then Midnight(y, m, d + 1)
    else if m < 12 then Midnight(y, m + 1, 1)
    else Midnight(y + 1, 1, 1)
  }

  /** A year contributes exactly its own length to the day count. */
  lemma YearLength(y: int)
    requires IsValidYear(y) && y < 9999
    ensures DaysBeforeYear(y + 1) == DaysBeforeYear(y) + DaysInYear(y)
  {
    assert y / 4 - (y - 1) / 4 == if y % 4 == 0 then 1 else 0;
    assert y / 100 - (y - 1) / 100 == if y % 100 == 0 then 1 else 0;
    assert y / 400 - (y - 1) / 400 == if y % 400 == 0 then 1 else 0;
    assert y % 400 == 0 ==> y % 100 == 0;
    assert y % 100 == 0 ==> y % 4 == 0;
  }

  lemma {:induction false} MonthsFillYear(y: int, m: int)
    requires IsValidYear(y) && 1 <= m <= 12
    ensures DaysBeforeMonth(y, m) + DaysInMonth(y, m) <= DaysInYear(y)
    ensures m == 12 ==> DaysBeforeMonth(y, m) + DaysInMonth(y, m) == DaysInYear(y)
    decreases 12 - m
  {
    if m == 12 {
      assert DaysBeforeMonth(y, 12) == 334 + (if IsLeapYear(y) then 1 else 0) by {
        assert DaysBeforeMonth(y, 2) == 31;
        assert DaysBeforeMonth(y, 3) == 31 + DaysInMonth(y, 2);
        assert DaysBeforeMonth(y, 4) == DaysBeforeMonth(y, 3) + 31;
        assert DaysBeforeMonth(y, 5) == DaysBeforeMonth(y, 4) + 30;
        assert DaysBeforeMonth(y, 6) == DaysBeforeMonth(y, 5) + 31;
        assert DaysBeforeMonth(y, 7) == DaysBeforeMonth(y, 6) + 30;
        assert DaysBeforeMonth(y, 8) == DaysBeforeMonth(y, 7) + 31;
        assert DaysBeforeMonth(y, 9) == DaysBeforeMonth(y, 8) + 31;
        assert DaysBeforeMonth(y, 10) == DaysBeforeMonth(y, 9) + 30;
        assert DaysBeforeMonth(y, 11) == DaysBeforeMonth(y, 10) + 31;
        assert DaysBeforeMonth(y, 12) == DaysBeforeMonth(y, 11) + 30;
      }
    } else {
      MonthsFillYear(y, m + 1);
    }
  }

  /** Consecutive calendar dates have consecutive day numbers. */
  lemma DayNumberNext(y: int, m: int, d: int)
    requires IsValidDate(y, m, d) && (y, m, d) != (9999, 12, 31)
    ensures var n := NextDate(y, m, d); DayNumber(n.year, n.month, n.day) == DayNumber(y, m, d) + 1
  {
    if d == DaysInMonth(y, m) && m == 12 {
      MonthsFillYear(y, 12);
      YearLength(y);
    }
  }

  /** The day of the week advances by one, cyclically, from each date to the next. */
  lemma DayOfWeekNext(y: int, m: int, d: int)
    requires IsValidDate(y, m, d) && (y, m, d) != (9999, 12, 31)
    ensures var n := NextDate(y, m, d); DayOfWeek(n.year, n.month, n.day) == (DayOfWeek(y, m, d) + 1) % 7
  {
    DayNumberNext(y, m, d);
    var n := NextDate(y, m, d);
    WeekdayStep(DayNumber(y, m, d) + 1);
    assert DayNumber(n.year, n.month, n.day) + 1 == DayNumber(y, m, d) + 1 + 1;
  }

  /** The remainder modulo 7 of the next number is the next remainder, cyclically. */
  lemma WeekdayStep(a: int)
    ensures (a + 1) % 7 == (a % 7 + 1) % 7
  {
    var q, r := a / 7, a % 7;
    assert a == 7 * q + r && 0 <= r < 7;
    if r < 6 {
      assert a + 1 == 7 * q + (r + 1);
    } else {
      assert a + 1 == 7 * (q + 1);
    }
  }

  lemma {:induction false} MonthOrder(y: int, m1: int, m2: int)
    requires IsValidYear(y) && 1 <= m1 < m2 <= 12
    ensures DaysBeforeMonth(y, m1) + DaysInMonth(y, m1) <= DaysBeforeMonth(y, m2)
  {
    if m1 < m2 - 1 {
      MonthOrder(y, m1, m2 - 1);
    }
  }

  lemma {:induction false} YearOrder(y1: int, y2: int)
    requires IsValidYear(y1) && IsValidYear(y2) && y1 < y2
    ensures DaysBeforeYear(y1) + DaysInYear(y1) <= DaysBeforeYear(y2)
    decreases y2 - y1
  {
    YearLength(y1);
    if y1 + 1 < y2 {
      YearOrder(y1 + 1, y2);
    }
  }

  /** Every date of year y has a day number within that year's span. */
  lemma DayNumberInYear(y: int, m: int, d: int)
    requires IsValidDate(y, m, d)
    ensures DaysBeforeYear(y) <= DayNumber(y, m, d) < DaysBeforeYear(y) + DaysInYear(y)
  {
    MonthsFillYear(y, m);
  }

  /** The calendar order of dates is the order of their day numbers. */
  lemma DayNumberOrder(a: DateTime, b: DateTime)
    requires IsValidDate(a.year, a.month, a.day) && IsValidDate(b.year, b.month, b.day)
    ensures Less(DateOf(a), DateOf(b)) <==> DayNumber(a.year, a.month, a.day) < DayNumber(b.year, b.month, b.day)
  {
    DayNumberInYear(a.year, a.month, a.day);
    DayNumberInYear(b.year, b.month, b.day);
    if a.year < b.year {
      YearOrder(a.year, b.year);
    } else if b.year < a.year {
      YearOrder(b.year, a.year);
    } else if a.month < b.month {
      MonthOrder(a.year, a.month, b.month);
    } else if b.month < a.month {
      MonthOrder(a.year, b.month, a.month);
    }
  }

  /**
   * Comparing DateTime values field by field, as this model does, agrees with
   * .NET's comparison of their tick counts.
   */
  lemma LessIsTickOrder(a: DateTime, b: DateTime)
    requires IsValidDateTime(a) && IsValidDateTime(b)
    ensures Less(a, b) <==> Ticks(a) < Ticks(b)
  {
    DayNumberOrder(a, b);
    var na, nb := DayNumber(a.year, a.month, a.day), DayNumber(b.year, b.month, b.day);
    if na < nb {
      assert na * TICKS_PER_DAY + TICKS_PER_DAY <= nb * TICKS_PER_DAY;
    } else if nb < na {
      assert nb * TICKS_PER_DAY + TICKS_PER_DAY <= na * TICKS_PER_DAY;
    } else {
      DayNumberOrder(b, a);
    }
  }

  /** 1 January 2024 fell on a Monday. */
  lemma NewYear2024IsMonday()
    ensures DayOfWeek(2024, 1, 1) == 1
  {
    assert DaysBeforeYear(2024) == 738885;
  }
}
