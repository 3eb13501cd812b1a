/**
 * CalendarControlModel, the view model behind the horizontal calendar, and
 * the state change a tap on a day cell makes. Every regeneration of the cell
 * list is proved to leave exactly MonthView(...) of calendar_data.dfy.
 */
module CalendarControl {
  import opened Text
  import opened Dates
  import opened CalendarData

  /** What a tap on a cell leads to. */
  datatype TapOutcome =
    | NotTappable            // the cell has no tap gesture recogniser
    | NoListener             // OnSelectedDateChanged is null, so the event is dropped
    | Selected(date: DateTime)
    | Failed                 // Convert.ToInt32 or the DateTime constructor throws

  /** The outcome of a tap on cell c while the model holds yearValue and month. */
  function TapResult(c: Calender, listenerAttached: bool, yearValue: int, month: int): (r: TapOutcome)
    ensures r.NotTappable? <==> !Tappable(c)
    ensures r.NoListener? <==> Tappable(c) && !listenerAttached
    ensures r.Selected? ==> listenerAttached && IsValidDateTime(r.date)
                            && r.date.year == yearValue && r.date.month == month
    ensures r.Selected? ==> Tappable(c) && TapTarget(c, yearValue, month) == Some(r.date)
    ensures r.Failed? <==> Tappable(c) && listenerAttached && TapTarget(c, yearValue, month).None?
  {
    if !Tappable(c) then NotTappable
    else if !listenerAttached then NoListener
    else match TapTarget(c, yearValue, month)
      case None => Failed
      case Some(date) => Selected(date)
  }

  /**
   * When the grid shows the month the model is set to, a tap on an active day
   * cell with a listener attached selects that day, and no tap fails.
   */
  lemma TapOnShownMonth(loc: Locale, y: int, m: int, minimumDate: DateTime, maximumDate: DateTime, k: int)
    requires WellFormedLocale(loc) && IsValidYear(y) && 1 <= m <= 12
    requires var v := MonthView(loc, y, m, y, minimumDate, maximumDate); 0 <= k < |v|
    ensures var v := MonthView(loc, y, m, y, minimumDate, maximumDate);
      && TapResult(v[k], true, y, m) != Failed
      && (TapResult(v[k], true, y, m).Selected? <==> PADDING_CELLS <= k < DaysInMonth(y, m) + PADDING_CELLS && v[k].isActive)
      && (TapResult(v[k], true, y, m).Selected? ==> TapResult(v[k], true, y, m).date == Midnight(y, m, k - 2))
  {
    TappableCells(loc, y, m, y, minimumDate, maximumDate);
    TapSelectsShownDay(loc, y, m, minimumDate, maximumDate);
  }

  /**
   * The Month setter regenerates the list but not the grid. With March 2024
   * on the grid and Month set to 2, the cell "31" still carries a tap
   * handler, and the tap makes the DateTime constructor throw.
   */
  lemma StaleGridTapFails(loc: Locale)
    requires WellFormedLocale(loc)
    ensures var g := MonthView(loc, 2024, 3, 2024, MIN_VALUE, MAX_VALUE);
      && |g| == 37 && g[33].day == "31" && Tappable(g[33])
      && TapResult(g[33], true, 2024, 2) == Failed
  {
    MonthViewLayout(loc, 2024, 3, 2024, MIN_VALUE, MAX_VALUE);
    var g := MonthView(loc, 2024, 3, 2024, MIN_VALUE, MAX_VALUE);
    assert g[33] == DayCell(loc, 2024, 3, 31, 2024, MIN_VALUE, MAX_VALUE);
    ActiveIffWithinBounds(Midnight(2024, 3, 31), MIN_VALUE, MAX_VALUE);
    assert NatToString(31) == "31";
  }

  /** The month-list loop of the constructor: the non-blank names, numbered from "0". */
  method BuildMonthList(names: seq<string>) returns (months: seq<Months>)
    ensures months == MonthListFrom(names)
  {
    months := [];
    var i := 0;
    for k := 0 to |names|
      invariant months == MonthListFrom(names[..k])
      invariant i == |months|
    {
      MonthListStep(names, k);
      if !IsBlank(names[k]) {
        months := months + [Months(names[k], NatToString(i))];
        i := i + 1;
      }
    }
    assert names[..|names|] == names;
  }

  /** The year-list loop of the constructor: "2017" .. "2099". */
  method BuildYearList() returns (years: seq<string>)
    ensures years == YearLabels()
  {
    years := [];
    ghost var labels := YearLabels();
    for yearIndex := FIRST_YEAR to END_YEAR
      invariant years == labels[..yearIndex - FIRST_YEAR]
    {
      assert labels[..yearIndex - FIRST_YEAR + 1] == labels[..yearIndex - FIRST_YEAR] + [NatToString(yearIndex)];
      years := years + [NatToString(yearIndex)];
    }
    assert labels[..END_YEAR - FIRST_YEAR] == labels;
  }

  class CalendarControlModel {
    const locale: Locale

    var calenderList: seq<Calender>
    const monthList: seq<Months>
    const yearList: seq<string>
    var monthSelectedIndex: int
    var yearSelectedIndex: int
    var maximumDate: DateTime
    var minimumDate: DateTime
    var monthName: string
    var year: string
    var yearValue: int
    var selectedDate: DateTime
    var month: int
    var isCalendarAvailable: bool

    /**
     * The cells the view's grid was last built from (CreateCalendarGrid):
     * which cells carry a tap handler, and the day text a tap reads back.
     */
    var grid: seq<Calender>

    /** The year and month the header labels (and the cell list, once built) describe. */
    ghost var shownYear: int
    ghost var shownMonth: int

    /**
     * The picker lists hold what the constructor builds: the non-blank month
     * names of the locale and the year labels "2017".."2099". Both are
     * constants, so this holds for the whole life of the object.
     */
    ghost predicate ListsBuilt() {
      && monthList == MonthListFrom(locale.monthNames)
      && yearList == YearLabels()
    }

    /** The invariant of the fields that no regeneration changes. */
    ghost predicate Settled()
      reads this`yearValue, this`month, this`minimumDate, this`maximumDate, this`selectedDate
    {
      && WellFormedLocale(locale)
      && IsValidYear(yearValue) && 1 <= month <= 12
      && IsValidDateTime(minimumDate) && IsValidDateTime(maximumDate)
      && IsValidDateTime(selectedDate)
    }

    /**
     * The object invariant: the labels name the shown month, and the cell
     * list is empty (before the first regeneration) or the shown month
     * generated with the current YearValue and bounds.
     */
    ghost predicate Valid()
      reads this
    {
      && Settled()
      && IsValidYear(shownYear) && 1 <= shownMonth <= 12
      && monthName == MonthLabel(locale, shownMonth)
      && year == NatToString(shownYear)
      && isCalendarAvailable == (calenderList != [])
      && (calenderList == [] || calenderList == MonthView(locale, shownYear, shownMonth, yearValue, minimumDate, maximumDate))
    }

    /** The cell list shows the month the model is set to (Month of YearValue). */
    ghost predicate ShowsSelectedMonth()
      reads this
      requires Settled()
    {
      calenderList == MonthView(locale, yearValue, month, yearValue, minimumDate, maximumDate)
    }

    /**
     * The constructor, with the field initialisers: everything starts from
     * today, the bounds are DateTime.MinValue and DateTime.MaxValue, the month
     * list holds the non-blank month names and the year list "2017".."2099".
     * The cell list stays empty until something regenerates it.
     */
    constructor (loc: Locale, today: DateTime)
      requires WellFormedLocale(loc) && IsValidDateTime(today) && today.tick == 0
      ensures Valid() && ListsBuilt()
      ensures locale == loc
      ensures monthList == MonthListFrom(loc.monthNames) && yearList == YearLabels()
      ensures calenderList == [] && !isCalendarAvailable && grid == []
      ensures monthSelectedIndex == today.month - 1 && yearSelectedIndex == today.year - 1
      ensures month == today.month && yearValue == today.year && selectedDate == today
      ensures minimumDate == MIN_VALUE && maximumDate == MAX_VALUE
      ensures monthName == MonthLabel(loc, today.month) && year == NatToString(today.year)
    {
      var months := BuildMonthList(loc.monthNames);
      var years := BuildYearList();

      locale := loc;
      calenderList := [];
      monthList := months;
      yearList := years;
      monthSelectedIndex := today.month - 1;
      yearSelectedIndex := today.year - 1;
      maximumDate := MAX_VALUE;
      minimumDate := MIN_VALUE;
      monthName := MonthLabel(loc, today.month);
      year := NatToString(today.year);
      yearValue := today.year;
      selectedDate := today;
      month := today.month;
      isCalendarAvailable := false;
      grid := [];
      shownYear, shownMonth := today.year, today.month;
    }

    /**
     * Rebuilds the cell list for (currentYear, currentMonth), or for today's
     * month when both are 0 (the default arguments), and sets the header
     * labels to that month. The day cells carry the YearValue field as their
     * Year, whatever currentYear is.
     */
    method CreateCalenderData(currentYear: int, currentMonth: int, today: DateTime)
      requires Settled() && IsValidDateTime(today)
      requires (currentYear == 0 && currentMonth == 0) || (IsValidYear(currentYear) && 1 <= currentMonth <= 12)
      modifies this`calenderList, this`monthName, this`year, this`isCalendarAvailable, this`shownYear, this`shownMonth
      ensures Valid() && isCalendarAvailable
      ensures if currentYear == 0 && currentMonth == 0
              then shownYear == today.year && shownMonth == today.month
              else shownYear == currentYear && shownMonth == currentMonth
      ensures calenderList == MonthView(locale, shownYear, shownMonth, yearValue, minimumDate, maximumDate)
    {
      calenderList := [];
      var y, m := currentYear, currentMonth;
      if y == 0 && m == 0 {
        y, m := today.year, today.month;
      }
      monthName := MonthLabel(locale, m);
      year := NatToString(y);
      shownYear, shownMonth := y, m;

      calenderList := [];
      AddEmptyRowsForCalendarList(m);
      AddDayRowsForCalendarList(y, m);
      AddEmptyRowsForCalendarList(m);

      isCalendarAvailable := |calenderList| > 0;
    }

    /**
     * The day loop of CreateCalenderData: appends one cell per day of month m
     * of year y, classifying each day with the IsActive rule.
     */
    method AddDayRowsForCalendarList(y: int, m: int)
      requires WellFormedLocale(locale) && IsValidYear(y) && 1 <= m <= 12
      modifies this`calenderList
      ensures calenderList == old(calenderList) + DayCells(locale, y, m, yearValue, minimumDate, maximumDate)
    {
      var days := DaysInMonth(y, m);
      ghost var cells := DayCells(locale, y, m, yearValue, minimumDate, maximumDate);
      var dayIndex := 1;
      while dayIndex <= days
        invariant 1 <= dayIndex <= days + 1
        invariant calenderList == old(calenderList) + cells[..dayIndex - 1]
      {
        var now := Midnight(y, m, dayIndex);
        var minDate := Midnight(minimumDate.year, minimumDate.month, 1);
        var weekday := DayOfWeek(y, m, dayIndex);
        var dayName := DayOfWeekName(weekday);
        var isActive := true;
        if Less(minDate, minimumDate) && Less(now, minimumDate) {
          isActive := false;
        } else if LessEq(minDate, now) && LessEq(now, maximumDate) {
          isActive := true;
        } else {
          isActive := false;
        }
        var cell := Calender(
          dayShortName := Upper(locale.abbreviatedDayNames[weekday]),
          dayFullName := dayName,
          day := NatToString(dayIndex),
          month := m,
          year := yearValue,
          isSelectedDate := false,
          isActive := isActive);
        DayCellsAt(locale, y, m, yearValue, minimumDate, maximumDate, dayIndex);
        assert cells[..dayIndex] == cells[..dayIndex - 1] + [cell];
        calenderList := calenderList + [cell];
        dayIndex := dayIndex + 1;
      }
      assert cells[..days] == cells;
    }

    /** Appends the three empty cells that pad each end of the month. */
    method AddEmptyRowsForCalendarList(currentMonth: int)
      modifies this`calenderList
      ensures calenderList == old(calenderList) + Padding(currentMonth)
    {
      for i := 0 to PADDING_CELLS
        invariant calenderList == old(calenderList) + Padding(currentMonth)[..i]
      {
        calenderList := calenderList + [Calender("", "", "", currentMonth, 0, false, true)];
        assert Padding(currentMonth)[..i + 1] == Padding(currentMonth)[..i] + [PaddingCell(currentMonth)];
      }
    }

    /** The Month setter: stores the month and regenerates it for YearValue. */
    method SetMonth(value: int, today: DateTime)
      requires Settled() && 1 <= value <= 12 && IsValidDateTime(today)
      modifies this`month, this`calenderList, this`monthName, this`year, this`isCalendarAvailable,
               this`shownYear, this`shownMonth
      ensures Valid() && ShowsSelectedMonth()
      ensures month == value && shownYear == yearValue && shownMonth == value
      ensures grid == old(grid)
    {
      month := value;
      CreateCalenderData(yearValue, value, today);
    }

    /** Relabels the header for (YearValue, Month) and regenerates that month. */
    method ChangeMonth(today: DateTime)
      requires Settled() && IsValidDateTime(today)
      modifies this`calenderList, this`monthName, this`year, this`isCalendarAvailable,
               this`shownYear, this`shownMonth, this`grid
      ensures Valid() && ShowsSelectedMonth()
      ensures shownYear == yearValue && shownMonth == month
      ensures grid == calenderList
    {
      monthName := MonthLabel(locale, month);
      year := NatToString(yearValue);
      CreateCalenderData(yearValue, month, today);
      CreateCalendarGrid();
    }

    /** The same steps as ChangeMonth, run after the year changes. */
    method ChangeYear(today: DateTime)
      requires Settled() && IsValidDateTime(today)
      modifies this`calenderList, this`monthName, this`year, this`isCalendarAvailable,
               this`shownYear, this`shownMonth, this`grid
      ensures Valid() && ShowsSelectedMonth()
      ensures shownYear == yearValue && shownMonth == month
      ensures grid == calenderList
    {
      monthName := MonthLabel(locale, month);
      year := NatToString(yearValue);
      CreateCalenderData(yearValue, month, today);
      CreateCalendarGrid();
    }

    /**
     * The MonthSelectedIndex setter: the same index changes nothing; another
     * index selects month index + 1 and shows it.
     */
    method SetMonthSelectedIndex(value: int, today: DateTime)
      requires Valid() && ListsBuilt() && IsValidDateTime(today)
      requires 0 <= value < |monthList| && value < 12
      modifies this`monthSelectedIndex, this`month, this`calenderList, this`monthName, this`year,
               this`isCalendarAvailable, this`shownYear, this`shownMonth, this`grid
      ensures Valid()
      ensures old(monthSelectedIndex) == value ==> unchanged(this)
      ensures old(monthSelectedIndex) != value ==>
        && monthSelectedIndex == value && month == value + 1
        && ShowsSelectedMonth() && shownYear == yearValue && shownMonth == month
        && grid == calenderList
    {
      if monthSelectedIndex != value {
        monthSelectedIndex := value;
        var monthValue := monthList[monthSelectedIndex].monthName;
        monthName := Upper(monthValue);
        SetMonth(monthSelectedIndex + 1, today);
        ChangeMonth(today);
      }
    }

    /**
     * The YearSelectedIndex setter: the same index changes nothing; another
     * index sets YearValue and Year from the year list and shows Month of
     * that year.
     */
    method SetYearSelectedIndex(value: int, today: DateTime)
      requires Valid() && ListsBuilt() && IsValidDateTime(today)
      requires 0 <= value < |yearList|
      modifies this`yearSelectedIndex, this`yearValue, this`year, this`calenderList, this`monthName,
               this`isCalendarAvailable, this`shownYear, this`shownMonth, this`grid
      ensures Valid()
      ensures old(yearSelectedIndex) == value ==> unchanged(this)
      ensures old(yearSelectedIndex) != value ==>
        && yearSelectedIndex == value && yearValue == FIRST_YEAR + value && year == yearList[value]
        && ShowsSelectedMonth() && shownYear == yearValue && shownMonth == month
        && grid == calenderList
    {
      if yearSelectedIndex != value {
        yearSelectedIndex := value;
        YearLabelAt(value);
        var parsed := ParseDecimal(yearList[yearSelectedIndex]);
        yearValue := parsed.value;
        year := yearList[yearSelectedIndex];
        ChangeYear(today);
      }
    }

    /**
     * The MinimumDate setter: stores the bound and regenerates TODAY's month
     * (CreateCalenderData with its default arguments); Month and YearValue
     * keep whatever was selected.
     */
    method SetMinimumDate(value: DateTime, today: DateTime)
      requires Valid() && IsValidDateTime(value) && IsValidDateTime(today)
      modifies this`minimumDate, this`calenderList, this`monthName, this`year, this`isCalendarAvailable,
               this`shownYear, this`shownMonth, this`grid
      ensures Valid()
      ensures minimumDate == value && shownYear == today.year && shownMonth == today.month
      ensures calenderList == MonthView(locale, today.year, today.month, yearValue, value, maximumDate)
      ensures grid == calenderList
    {
      minimumDate := value;
      CreateCalenderData(0, 0, today);
      CreateCalendarGrid();
    }

    /** The MaximumDate setter: as SetMinimumDate, for the upper bound. */
    method SetMaximumDate(value: DateTime, today: DateTime)
      requires Valid() && IsValidDateTime(value) && IsValidDateTime(today)
      modifies this`maximumDate, this`calenderList, this`monthName, this`year, this`isCalendarAvailable,
               this`shownYear, this`shownMonth, this`grid
      ensures Valid()
      ensures maximumDate == value && shownYear == today.year && shownMonth == today.month
      ensures calenderList == MonthView(locale, today.year, today.month, yearValue, minimumDate, value)
      ensures grid == calenderList
    {
      maximumDate := value;
      CreateCalenderData(0, 0, today);
      CreateCalendarGrid();
    }

    /**
     * CreateCalendarGrid of the view, as far as taps are concerned: the grid
     * is rebuilt from the current list, one column per cell, and only its
     * non-blank active cells get a tap handler. The Month setter alone does
     * not call it, so the grid can lag behind the list.
     */
    method CreateCalendarGrid()
      modifies this`grid
      ensures grid == calenderList
    {
      grid := calenderList;
    }

    /**
     * A tap on the grid cell at `index`: only a cell with a non-blank short day
     * name that is active has a gesture recogniser; the event goes on only if
     * a listener is attached; then SelectedDate becomes (YearValue, Month,
     * the cell's day), unless that is no date, when the constructor throws
     * and nothing changes.
     */
    method TapCell(index: int, listenerAttached: bool) returns (outcome: TapOutcome)
      requires Valid() && 0 <= index < |grid|
      modifies this`selectedDate
      ensures Valid()
      ensures outcome == TapResult(grid[index], listenerAttached, yearValue, month)
      ensures selectedDate == if outcome.Selected? then outcome.date else old(selectedDate)
      ensures grid == calenderList && ShowsSelectedMonth() ==> !outcome.Failed?
    {
      if grid == calenderList && ShowsSelectedMonth() {
        TapOnShownMonth(locale, yearValue, month, minimumDate, maximumDate, index);
      }
      var item := grid[index];
      if IsBlank(item.dayShortName) || !item.isActive {
        return NotTappable;
      }
      if !listenerAttached {
        return NoListener;
      }
      var d := ParseDecimal(item.day);
      if d.None? {
        return Failed;
      }
      var date := MakeDate(yearValue, month, d.value);
      if date.None? {
        return Failed;
      }
      selectedDate := date.value;
      outcome := Selected(date.value);
    }
  }
}
