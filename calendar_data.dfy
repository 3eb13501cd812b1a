/**
 * What CalendarControlModel computes without reference to its own state:
 * the day cells of one month (CreateCalenderData, AddEmptyRowsForCalendarList),
 * the activity rule for a day, the month and year picker lists, and what a
 * tap on a cell selects. The class in calendar_model.dfy is proved against
 * these functions; the lemmas here say what the functions mean.
 */
module CalendarData {
  import opened Text
  import opened Dates

  /** Cells added before and after the days of the month. */
  const PADDING_CELLS: nat := 3

  /** The first and one-past-the-last year offered by the year picker. */
  const FIRST_YEAR: nat := 2017
  const END_YEAR: nat := 2100

  /**
   * The culture data the control reads: DateTimeFormatInfo.MonthNames (13
   * entries; the 13th is blank for a twelve-month calendar) and the
   * abbreviated day names that ToString("ddd") yields, indexed by DayOfWeek.
   */
  datatype Locale = Locale(monthNames: seq<string>, abbreviatedDayNames: seq<string>)

  predicate WellFormedLocale(loc: Locale) {
    && |loc.monthNames| == 13
    && |loc.abbreviatedDayNames| == 7
    && forall w :: 0 <= w < 7 ==> !IsBlank(loc.abbreviatedDayNames[w])
  }

  /** One cell of the horizontal calendar (the Calender record). */
  datatype Calender = Calender(
    dayShortName: string,
    dayFullName: string,
    day: string,
    month: int,
    year: int,
    isSelectedDate: bool,
    isActive: bool)

  /** One entry of the month picker. */
  datatype Months = Months(monthName: string, monthIndex: string)

  /**
   * The IsActive rule of CreateCalenderData for the day `now`: inactive when
   * the minimum is past the first of its month and `now` is before it;
   * otherwise active when `now` lies between the first of the minimum's month
   * and the maximum. The first of the maximum's month plays no part.
   */
  function IsActiveDay(now: DateTime, minimumDate: DateTime, maximumDate: DateTime): (r: bool)
    ensures r ==> LessEq(now, maximumDate)
    ensures r ==> LessEq(Midnight(minimumDate.year, minimumDate.month, 1), now)
    ensures Less(now, Midnight(minimumDate.year, minimumDate.month, 1)) ==> !r
  {
    var minDate := Midnight(minimumDate.year, minimumDate.month, 1);
    if Less(minDate, minimumDate) && Less(now, minimumDate) then false
    else if LessEq(minDate, now) && LessEq(now, maximumDate) then true
    else false
  }

  /** The cell CreateCalenderData adds for day d of month m of year y. */
  function DayCell(loc: Locale, y: int, m: int, d: int, yearValue: int,
                   minimumDate: DateTime, maximumDate: DateTime): (r: Calender)
    requires WellFormedLocale(loc) && IsValidDate(y, m, d)
    ensures ParseDecimal(r.day) == Some(d) && r.month == m && r.year == yearValue
    ensures !IsBlank(r.dayShortName) && !r.isSelectedDate
  {
    ParseNatToString(d);
    var w := DayOfWeek(y, m, d);
    Calender(
      dayShortName := Upper(loc.abbreviatedDayNames[w]),
      dayFullName := DayOfWeekName(w),
      day := NatToString(d),
      month := m,
      year := yearValue,
      isSelectedDate := false,
      isActive := IsActiveDay(Midnight(y, m, d), minimumDate, maximumDate))
  }

  /** The empty cell AddEmptyRowsForCalendarList adds; its Year keeps the default 0. */
  function PaddingCell(m: int): (r: Calender)
    ensures IsBlank(r.dayShortName) && ParseDecimal(r.day) == None
    ensures r.month == m && r.isActive && !r.isSelectedDate
  {
    Calender("", "", "", m, 0, false, true)
  }

  function Padding(m: int): seq<Calender> {
    seq(PADDING_CELLS, _ => PaddingCell(m))
  }

  function DayCells(loc: Locale, y: int, m: int, yearValue: int,
                    minimumDate: DateTime, maximumDate: DateTime): seq<Calender>
    requires WellFormedLocale(loc) && IsValidYear(y) && 1 <= m <= 12
  {
    seq(DaysInMonth(y, m), i requires 0 <= i < DaysInMonth(y, m) =>
      DayCell(loc, y, m, i + 1, yearValue, minimumDate, maximumDate))
  }

  lemma DayCellsAt(loc: Locale, y: int, m: int, yearValue: int,
                   minimumDate: DateTime, maximumDate: DateTime, d: int)
    requires WellFormedLocale(loc) && IsValidYear(y) && 1 <= m <= 12 && 1 <= d <= DaysInMonth(y, m)
    ensures DayCells(loc, y, m, yearValue, minimumDate, maximumDate)[d - 1]
            == DayCell(loc, y, m, d, yearValue, minimumDate, maximumDate)
  {
  }

  /**
   * The list CreateCalenderData(y, m) leaves in CalenderList; yearValue is the
   * model's YearValue field, which the day cells carry as their Year.
   */
  function MonthView(loc: Locale, y: int, m: int, yearValue: int,
                     minimumDate: DateTime, maximumDate: DateTime): (r: seq<Calender>)
    requires WellFormedLocale(loc) && IsValidYear(y) && 1 <= m <= 12
    ensures |r| == DaysInMonth(y, m) + 2 * PADDING_CELLS
    ensures 34 <= |r| <= 37
  {
    Padding(m) + DayCells(loc, y, m, yearValue, minimumDate, maximumDate) + Padding(m)
  }

  /** ToString("MMMMM").ToUpper() of a date in month m. */
  function MonthLabel(loc: Locale, m: int): (r: string)
    requires WellFormedLocale(loc) && 1 <= m <= 12
    ensures |r| == |loc.monthNames[m - 1]|
    ensures IsBlank(r) <==> IsBlank(loc.monthNames[m - 1])
  {
    Upper(loc.monthNames[m - 1])
  }

  /**
   * A cell gets a tap handler when its short day name is not blank and it is
   * active.
   */
  predicate Tappable(c: Calender)
    ensures Tappable(c) ==> |c.dayShortName| > 0 && c.isActive
  {
    !IsBlank(c.dayShortName) && c.isActive
  }

  /**
   * The date a tap on cell c selects: new DateTime(YearValue, Month, the
   * cell's day parsed), or None where the parse or the constructor throws.
   */
  function TapTarget(c: Calender, yearValue: int, month: int): (r: Option<DateTime>)
    ensures r.Some? <==> ParseDecimal(c.day).Some? && IsValidDate(yearValue, month, ParseDecimal(c.day).value)
    ensures r.Some? ==> IsValidDateTime(r.value) && r.value == Midnight(yearValue, month, ParseDecimal(c.day).value)
  {
    match ParseDecimal(c.day)
    case None => None
    case Some(d) => MakeDate(yearValue, month, d)
  }

  /** The month picker list: the non-blank names, numbered "0", "1", ... in order. */
  function MonthListFrom(names: seq<string>): (r: seq<Months>)
    ensures |r| <= |names|
    ensures forall j :: 0 <= j < |r| ==> !IsBlank(r[j].monthName) && r[j].monthIndex == NatToString(j)
  {
    if |names| == 0 then []
    else
      var prev := MonthListFrom(names[..|names| - 1]);
      var last := names[|names| - 1];
      if IsBlank(last) then prev else prev + [Months(last, NatToString(|prev|))]
  }

  /** Taking one more name extends the month list by that name unless it is blank. */
  lemma MonthListStep(names: seq<string>, k: int)
    requires 0 <= k < |names|
    ensures var prev := MonthListFrom(names[..k]);
      MonthListFrom(names[..k + 1])
        == if IsBlank(names[k]) then prev else prev + [Months(names[k], NatToString(|prev|))]
  {
    assert names[..k + 1][..k] == names[..k];
  }

  /** The non-blank entries of a list of names, in order. */
  function NonBlank(names: seq<string>): seq<string> {
    if |names| == 0 then []
    else (if IsBlank(names[0]) then [] else [names[0]]) + NonBlank(names[1..])
  }

  /** The year picker list: the decimal texts of FIRST_YEAR .. END_YEAR - 1. */
  function YearLabels(): (r: seq<string>)
    ensures |r| == END_YEAR - FIRST_YEAR
    ensures forall i :: 0 <= i < |r| ==> |r[i]| > 0 && IsDigits(r[i])
  {
    var labels := seq(END_YEAR - FIRST_YEAR, i requires 0 <= i => NatToString(FIRST_YEAR + i));
    assert forall i :: 0 <= i < |labels| ==> labels[i] == NatToString(FIRST_YEAR + i);
    labels
  }

  // ---------------------------------------------------------------------
  // The activity rule

  /**
   * The asymmetric rule reduces to the plain inclusive range test: a day is
   * active exactly when minimumDate <= now <= maximumDate.
   */
  lemma ActiveIffWithinBounds(now: DateTime, minimumDate: DateTime, maximumDate: DateTime)
    requires IsValidDateTime(minimumDate)
    ensures IsActiveDay(now, minimumDate, maximumDate)
            <==> LessEq(minimumDate, now) && LessEq(now, maximumDate)
  {
    var minDate := Midnight(minimumDate.year, minimumDate.month, 1);
    if !Less(minDate, minimumDate) {
      assert minDate == minimumDate;
    }
  }

  /**
   * At the bounds themselves: the minimum's own day is active only when the
   * minimum is a midnight (a bound carrying a time of day, such as
   * DateTime.Now, makes that day inactive), while the maximum's own day is
   * active whenever it is not before the minimum.
   */
  lemma BoundaryDays(minimumDate: DateTime, maximumDate: DateTime)
    requires IsValidDateTime(minimumDate) && IsValidDateTime(maximumDate)
    ensures IsActiveDay(DateOf(minimumDate), minimumDate, maximumDate)
            <==> minimumDate.tick == 0 && LessEq(minimumDate, maximumDate)
    ensures IsActiveDay(DateOf(maximumDate), minimumDate, maximumDate)
            <==> LessEq(minimumDate, DateOf(maximumDate))
  {
    ActiveIffWithinBounds(DateOf(minimumDate), minimumDate, maximumDate);
    ActiveIffWithinBounds(DateOf(maximumDate), minimumDate, maximumDate);
  }

  // ---------------------------------------------------------------------
  // The generated month

  /**
   * Three padding cells, one cell per day of the month (day d at index d + 2),
   * three padding cells.
   */
  lemma MonthViewLayout(loc: Locale, y: int, m: int, yearValue: int,
                        minimumDate: DateTime, maximumDate: DateTime)
    requires WellFormedLocale(loc) && IsValidYear(y) && 1 <= m <= 12
    ensures var v := MonthView(loc, y, m, yearValue, minimumDate, maximumDate);
      && |v| == DaysInMonth(y, m) + 2 * PADDING_CELLS
      && (forall k :: 0 <= k < PADDING_CELLS ==> v[k] == PaddingCell(m))
      && (forall k :: DaysInMonth(y, m) + PADDING_CELLS <= k < |v| ==> v[k] == PaddingCell(m))
      && (forall d :: 1 <= d <= DaysInMonth(y, m) ==>
            v[d + 2] == DayCell(loc, y, m, d, yearValue, minimumDate, maximumDate))
  {
    var v := MonthView(loc, y, m, yearValue, minimumDate, maximumDate);
    var n := DaysInMonth(y, m);
    var days := DayCells(loc, y, m, yearValue, minimumDate, maximumDate);
    assert v == Padding(m) + days + Padding(m);
    forall d | 1 <= d <= n
      ensures v[d + 2] == DayCell(loc, y, m, d, yearValue, minimumDate, maximumDate)
    {
      assert v[d + 2] == days[d - 1];
    }
    forall k | n + PADDING_CELLS <= k < |v|
      ensures v[k] == PaddingCell(m)
    {
      assert v[k] == Padding(m)[k - n - PADDING_CELLS];
    }
  }

  /** February has 29 days in 2024 and 28 in 2023, so 35 and 34 cells. */
  lemma FebruaryCellCounts(loc: Locale, yearValue: int, minimumDate: DateTime, maximumDate: DateTime)
    requires WellFormedLocale(loc)
    ensures |MonthView(loc, 2024, 2, yearValue, minimumDate, maximumDate)| == 35
    ensures |MonthView(loc, 2023, 2, yearValue, minimumDate, maximumDate)| == 34
  {
    MonthViewLayout(loc, 2024, 2, yearValue, minimumDate, maximumDate);
    MonthViewLayout(loc, 2023, 2, yearValue, minimumDate, maximumDate);
  }

  /**
   * The day cells read "1" .. "DaysInMonth" in strictly ascending order, and
   * every padding cell has empty names and day text.
   */
  lemma MonthViewDayNumbers(loc: Locale, y: int, m: int, yearValue: int,
                            minimumDate: DateTime, maximumDate: DateTime)
    requires WellFormedLocale(loc) && IsValidYear(y) && 1 <= m <= 12
    ensures var v := MonthView(loc, y, m, yearValue, minimumDate, maximumDate);
      && (forall d :: 1 <= d <= DaysInMonth(y, m) ==>
            v[d + 2].day == NatToString(d) && ParseDecimal(v[d + 2].day) == Some(d))
      && (forall i, j :: PADDING_CELLS <= i < j < DaysInMonth(y, m) + PADDING_CELLS ==>
            ParseDecimal(v[i].day).Some? && ParseDecimal(v[j].day).Some?
            && ParseDecimal(v[i].day).value < ParseDecimal(v[j].day).value)
      && (forall k :: 0 <= k < |v| && !(PADDING_CELLS <= k < DaysInMonth(y, m) + PADDING_CELLS) ==>
            v[k].day == "" && v[k].dayShortName == "" && v[k].dayFullName == "")
  {
    MonthViewLayout(loc, y, m, yearValue, minimumDate, maximumDate);
    var v := MonthView(loc, y, m, yearValue, minimumDate, maximumDate);
    var n := DaysInMonth(y, m);
    forall d | 1 <= d <= n
      ensures v[d + 2].day == NatToString(d) && ParseDecimal(v[d + 2].day) == Some(d)
    {
      assert v[d + 2] == DayCell(loc, y, m, d, yearValue, minimumDate, maximumDate);
    }
    forall k | PADDING_CELLS <= k < n + PADDING_CELLS
      ensures ParseDecimal(v[k].day) == Some(k - 2)
    {
      assert v[(k - 2) + 2].day == v[k].day;
    }
    forall k | 0 <= k < |v| && !(PADDING_CELLS <= k < n + PADDING_CELLS)
      ensures v[k].day == "" && v[k].dayShortName == "" && v[k].dayFullName == ""
    {
      assert v[k] == PaddingCell(m);
    }
  }

  /**
   * Every cell carries the generated month and is not marked selected; day
   * cells carry yearValue as their Year, padding cells the default 0 and
   * IsActive = true.
   */
  lemma MonthViewFields(loc: Locale, y: int, m: int, yearValue: int,
                        minimumDate: DateTime, maximumDate: DateTime)
    requires WellFormedLocale(loc) && IsValidYear(y) && 1 <= m <= 12
    ensures var v := MonthView(loc, y, m, yearValue, minimumDate, maximumDate);
      && (forall k :: 0 <= k < |v| ==> v[k].month == m && !v[k].isSelectedDate)
      && (forall k :: PADDING_CELLS <= k < DaysInMonth(y, m) + PADDING_CELLS ==> v[k].year == yearValue)
      && (forall k :: 0 <= k < |v| && !(PADDING_CELLS <= k < DaysInMonth(y, m) + PADDING_CELLS) ==>
            v[k].year == 0 && v[k].isActive)
  {
    MonthViewLayout(loc, y, m, yearValue, minimumDate, maximumDate);
  }

  /** Day d is active exactly when minimumDate <= d (at midnight) <= maximumDate. */
  lemma MonthViewActivity(loc: Locale, y: int, m: int, yearValue: int,
                          minimumDate: DateTime, maximumDate: DateTime)
    requires WellFormedLocale(loc) && IsValidYear(y) && 1 <= m <= 12
    requires IsValidDateTime(minimumDate)
    ensures var v := MonthView(loc, y, m, yearValue, minimumDate, maximumDate);
      forall d :: 1 <= d <= DaysInMonth(y, m) ==>
        (v[d + 2].isActive <==> LessEq(minimumDate, Midnight(y, m, d)) && LessEq(Midnight(y, m, d), maximumDate))
  {
    MonthViewLayout(loc, y, m, yearValue, minimumDate, maximumDate);
    forall d | 1 <= d <= DaysInMonth(y, m) {
      ActiveIffWithinBounds(Midnight(y, m, d), minimumDate, maximumDate);
    }
  }

  /**
   * Each day cell is named after its own day of the week, and the day of the
   * week advances by one from each day cell to the next.
   */
  lemma MonthViewWeekdays(loc: Locale, y: int, m: int, yearValue: int,
                          minimumDate: DateTime, maximumDate: DateTime)
    requires WellFormedLocale(loc) && IsValidYear(y) && 1 <= m <= 12
    ensures var v := MonthView(loc, y, m, yearValue, minimumDate, maximumDate);
      && (forall d :: 1 <= d <= DaysInMonth(y, m) ==>
            v[d + 2].dayFullName == DayOfWeekName(DayOfWeek(y, m, d))
            && v[d + 2].dayShortName == Upper(loc.abbreviatedDayNames[DayOfWeek(y, m, d)]))
      && (forall d :: 1 <= d < DaysInMonth(y, m) ==>
            DayOfWeek(y, m, d + 1) == (DayOfWeek(y, m, d) + 1) % 7)
  {
    MonthViewLayout(loc, y, m, yearValue, minimumDate, maximumDate);
    var v := MonthView(loc, y, m, yearValue, minimumDate, maximumDate);
    forall d | 1 <= d <= DaysInMonth(y, m)
      ensures v[d + 2].dayFullName == DayOfWeekName(DayOfWeek(y, m, d))
      ensures v[d + 2].dayShortName == Upper(loc.abbreviatedDayNames[DayOfWeek(y, m, d)])
    {
      assert v[d + 2] == DayCell(loc, y, m, d, yearValue, minimumDate, maximumDate);
    }
    forall d | 1 <= d < DaysInMonth(y, m)
      ensures DayOfWeek(y, m, d + 1) == (DayOfWeek(y, m, d) + 1) % 7
    {
      DayOfWeekNext(y, m, d);
    }
  }

  /** Exactly the active day cells are tappable; no padding cell is. */
  lemma TappableCells(loc: Locale, y: int, m: int, yearValue: int,
                      minimumDate: DateTime, maximumDate: DateTime)
    requires WellFormedLocale(loc) && IsValidYear(y) && 1 <= m <= 12
    ensures var v := MonthView(loc, y, m, yearValue, minimumDate, maximumDate);
      forall k :: 0 <= k < |v| ==>
        (Tappable(v[k]) <==> PADDING_CELLS <= k < DaysInMonth(y, m) + PADDING_CELLS && v[k].isActive)
  {
    MonthViewLayout(loc, y, m, yearValue, minimumDate, maximumDate);
    var v := MonthView(loc, y, m, yearValue, minimumDate, maximumDate);
    forall k | PADDING_CELLS <= k < DaysInMonth(y, m) + PADDING_CELLS
      ensures !IsBlank(v[k].dayShortName)
    {
      var d := k - 2;
      assert v[k] == DayCell(loc, y, m, d, yearValue, minimumDate, maximumDate);
      assert !IsBlank(loc.abbreviatedDayNames[DayOfWeek(y, m, d)]);
    }
  }

  /**
   * When the grid shows the month the model is set to (y == YearValue and
   * m == Month), a tap on the cell at index k selects day k - 2 of that month.
   */
  lemma TapSelectsShownDay(loc: Locale, y: int, m: int,
                           minimumDate: DateTime, maximumDate: DateTime)
    requires WellFormedLocale(loc) && IsValidYear(y) && 1 <= m <= 12
    ensures var v := MonthView(loc, y, m, y, minimumDate, maximumDate);
      forall k :: 0 <= k < |v| && Tappable(v[k]) ==>
        TapTarget(v[k], y, m) == Some(Midnight(y, m, k - 2))
  {
    TappableCells(loc, y, m, y, minimumDate, maximumDate);
    MonthViewDayNumbers(loc, y, m, y, minimumDate, maximumDate);
  }

  /**
   * When the grid shows another month than the model's Month (as after the
   * MinimumDate or MaximumDate setter regenerates today's month), a tap can
   * name a date that does not exist: with October 2026 on display and Month
   * = 2, the tappable cell "31" makes the DateTime constructor throw.
   */
  lemma StaleMonthTapFails(loc: Locale)
    requires WellFormedLocale(loc)
    ensures var v := MonthView(loc, 2026, 10, 2030, MIN_VALUE, MAX_VALUE);
      && |v| == 37 && v[33].day == "31" && Tappable(v[33])
      && TapTarget(v[33], 2030, 2) == None
  {
    MonthViewLayout(loc, 2026, 10, 2030, MIN_VALUE, MAX_VALUE);
    var v := MonthView(loc, 2026, 10, 2030, MIN_VALUE, MAX_VALUE);
    assert v[33] == DayCell(loc, 2026, 10, 31, 2030, MIN_VALUE, MAX_VALUE);
    ActiveIffWithinBounds(Midnight(2026, 10, 31), MIN_VALUE, MAX_VALUE);
    assert NatToString(31) == "31";
  }

  /**
   * February 2024 with the range 2024-01-01 .. 2024-02-29: all 29 days
   * active; with a minimum of 2024-03-01 instead, none is.
   */
  lemma February2024Activity(loc: Locale, yearValue: int)
    requires WellFormedLocale(loc)
    ensures var v := MonthView(loc, 2024, 2, yearValue, Midnight(2024, 1, 1), Midnight(2024, 2, 29));
      forall k :: 3 <= k < 32 ==> v[k].isActive
    ensures var v := MonthView(loc, 2024, 2, yearValue, Midnight(2024, 3, 1), MAX_VALUE);
      forall k :: 3 <= k < 32 ==> !v[k].isActive
  {
    MonthViewActivity(loc, 2024, 2, yearValue, Midnight(2024, 1, 1), Midnight(2024, 2, 29));
    MonthViewActivity(loc, 2024, 2, yearValue, Midnight(2024, 3, 1), MAX_VALUE);
    var v1 := MonthView(loc, 2024, 2, yearValue, Midnight(2024, 1, 1), Midnight(2024, 2, 29));
    var v2 := MonthView(loc, 2024, 2, yearValue, Midnight(2024, 3, 1), MAX_VALUE);
    forall k | 3 <= k < 32
      ensures v1[k].isActive && !v2[k].isActive
    {
      assert Midnight(2024, 2, k - 2).day == k - 2;
    }
  }

  // ---------------------------------------------------------------------
  // The picker lists

  lemma {:induction false} NonBlankSnoc(names: seq<string>, x: string)
    ensures NonBlank(names + [x]) == NonBlank(names) + (if IsBlank(x) then [] else [x])
  {
    if |names| == 0 {
      assert names + [x] == [x];
    } else {
      assert (names + [x])[1..] == names[1..] + [x];
      NonBlankSnoc(names[1..], x);
    }
  }

  /**
   * The month list holds exactly the non-blank names, in their order, and
   * entry j has MonthIndex j in decimal.
   */
  lemma {:induction false} MonthListContents(names: seq<string>)
    ensures var r := MonthListFrom(names);
      && |r| == |NonBlank(names)|
      && forall j :: 0 <= j < |r| ==>
           r[j].monthName == NonBlank(names)[j] && r[j].monthIndex == NatToString(j)
  {
    if |names| > 0 {
      var init, last := names[..|names| - 1], names[|names| - 1];
      MonthListContents(init);
      NonBlankSnoc(init, last);
      assert init + [last] == names;
    }
  }

  /** Entry i of the year list is the decimal text of 2017 + i. */
  lemma YearLabelAt(i: int)
    requires 0 <= i < |YearLabels()|
    ensures YearLabels()[i] == NatToString(FIRST_YEAR + i)
    ensures ParseDecimal(YearLabels()[i]) == Some(FIRST_YEAR + i)
  {
    ParseNatToString(FIRST_YEAR + i);
  }

  /** The year list is "2017" .. "2099": 83 entries, entry i parsing to 2017 + i. */
  lemma YearLabelsContents()
    ensures |YearLabels()| == 83
    ensures forall i :: 0 <= i < 83 ==> ParseDecimal(YearLabels()[i]) == Some(FIRST_YEAR + i)
    ensures YearLabels()[0] == "2017" && YearLabels()[82] == "2099"
  {
    forall i | 0 <= i < 83
      ensures ParseDecimal(YearLabels()[i]) == Some(FIRST_YEAR + i)
    {
      YearLabelAt(i);
    }
    assert NatToString(2017) == "2017";
    assert NatToString(2099) == "2099";
  }
}
