# HorizontalCalendar: a Dafny model of CalendarControlModel

HorizontalCalendar is a Xamarin.Forms date picker. It shows one month as a
horizontal strip of day cells, with a month picker and a year picker above
the strip. Its logic lives in `CalendarControlModel`, the view model behind
the `CalendarControl` view. This project models that view model:

- **Month generation.** `CreateCalenderData` and
  `AddEmptyRowsForCalendarList` produce three empty padding cells, one
  `Calender` cell per day, then three more padding cells.
- **The IsActive rule.** Each day cell is classified against `MinimumDate`
  and `MaximumDate`.
- **The picker lists.** The constructor builds the month list and the year
  list.
- **Navigation.** This covers the `MonthSelectedIndex`, `YearSelectedIndex`,
  `Month`, `MinimumDate` and `MaximumDate` setters and
  `ChangeMonth`/`ChangeYear`. Each updates fields and regenerates the list.
- **The grid.** `CreateCalendarGrid` of the view rebuilds the grid of
  cells from the list. Only this rebuild decides which cells a tap can
  reach and what day text a tap reads back.
- **Taps.** A tap on a grid cell updates `SelectedDate`.

The project has four files:

- `text.dfy` (module `Text`): the string conversions the code relies on.
  - `Convert.ToString`/`int.ToString` of a number, and `Convert.ToInt32` of
    a string.
  - `string.IsNullOrWhiteSpace`, with the .NET `Char.IsWhiteSpace` set.
  - `ToUpper`, restricted to ASCII letters.
- `dates.dfy` (module `Dates`): the part of `System.DateTime` the code uses.
  - A DateTime is a proleptic Gregorian date in years 1..9999 plus a time
    of day in 100 ns ticks. The time of day is kept because the demo page
    binds `MinimumDate` to `DateTime.Now`.
  - `DaysInMonth`, `DayOfWeek`, the three-argument constructor (which
    throws on an invalid date) and the comparison operators.
  - Field-by-field comparison is proved to agree with .NET's comparison of
    tick counts.
- `calendar_data.dfy` (module `CalendarData`): the `Calender` and `Months`
  records, the IsActive rule, and the specification functions the class is
  proved against.
  - `MonthView(loc, y, m, yearValue, min, max)` is the list a regeneration
    leaves.
  - `MonthListFrom` and `YearLabels` are the picker lists.
  - `TapTarget` is the date a tap selects.
  - The lemmas here state what those functions mean.
- `calendar_model.dfy` (module `CalendarControl`): the class
  `CalendarControlModel`.
  - Its fields mirror the source's backing fields. `CalenderList` is a
    `seq` that the methods reassign and append to.
  - Each method's `ensures` gives the whole new state in terms of the
    specification functions.
  - The object invariant is `Valid()`: the header labels name the month
    on display, and the list is empty or exactly `MonthView` of that month.
  - The field `grid` holds the cells the view's grid was last built from.
    `CreateCalendarGrid` sets it to the current list. The `MinimumDate`
    and `MaximumDate` setters, `ChangeMonth` and `ChangeYear` call it. The
    `Month` setter alone does not, so after it the grid can lag behind the
    list.
  - `TapCell` models a tap on a grid cell. Only a cell that has a gesture
    recogniser reacts, and the event goes on only when a listener is
    attached. It then selects `(YearValue, Month, day)`, or fails where
    `Convert.ToInt32` or the `DateTime` constructor throws.

The environment enters as parameters:

- **The clock.** `DateTime.Today` is the `today` parameter of every
  operation that reads it.
- **The culture.** `Locale` carries the data the code reads:
  - `DateTimeFormatInfo.MonthNames` (13 entries; the 13th is blank in a
    twelve-month calendar);
  - the abbreviated day names behind `ToString("ddd")`.

`ToString("MMMMM")` is the full month name, that is
`MonthNames[month - 1]`. `Convert.ToString(DayOfWeek)` is the enum member
name, whatever the culture.

Results worth knowing:

- **The IsActive rule reduces to a plain range test.** The asymmetric
  rule at `CalendarControl.xaml.cs:673-684` is exactly
  `minimumDate <= day <= maximumDate`, with the day at midnight
  (`ActiveIffWithinBounds`). So a minimum that carries a time of day, such
  as `DateTime.Now`, makes its own day inactive. The maximum's own day is
  active whenever the minimum is not after the maximum's midnight
  (`BoundaryDays`). The first of the maximum's month, which
  the code computes at line 669, plays no part.
- **No cell is ever marked selected.** The code never sets
  `IsSelectedDate` to true. The field's name suggests the tapped cell is
  marked, but the code only ever assigns it false (lines 693 and 714).
  `MonthViewFields` proves every cell has `isSelectedDate == false`.
- **The bound setters can make a tap fail.** The `MinimumDate` and
  `MaximumDate` setters regenerate today's month, not the month on
  display. `Month` and `YearValue` keep their values. A later tap selects
  `(YearValue, Month, day)`, which need not exist. `StaleMonthTapFails`
  exhibits one such tap, and there the `DateTime` constructor throws.
  When the grid shows the model's own month, no tap fails
  (`TapOnShownMonth`, and `TapCell` states it on the object). That holds
  after `ChangeMonth`, `ChangeYear`, or an index setter that changes the
  index; an index setter given its current index does nothing, so it
  leaves a stale grid stale.
- **The Month setter alone leaves a stale grid.** The `Month` setter
  (lines 596-601) regenerates the list but does not rebuild the grid. With
  March 2024 on the grid and `Month` set to 2, the cell "31" still has a
  tap handler, and the tap throws (`StaleGridTapFails`). The
  `MonthSelectedIndex` setter follows the `Month` setter with
  `ChangeMonth`, which rebuilds the grid, so a picker that changes the
  index rebuilds it.

## Model

| member | source | states |
|---|---|---|
| Text.NatToString | HorizontalCalendar/HorizontalCalendar/CalendarControl.xaml.cs:690 | The decimal text of a day number or year is a non-empty digit string without a leading zero, of length 1 exactly for numbers below 10 |
| Text.ParseDecimal | HorizontalCalendar/HorizontalCalendar/CalendarControl.xaml.cs:340 | Convert.ToInt32 yields a value exactly for non-empty digit strings, and that value is non-negative; any other text is the FormatException path |
| Text.ParseNatToString | HorizontalCalendar/HorizontalCalendar/CalendarControl.xaml.cs:690 | Parsing the text Convert.ToString writes for a number gives that number back (round trip between the day text of a cell and the day a tap selects) |
| Text.NatToStringInjective | HorizontalCalendar/HorizontalCalendar/CalendarControl.xaml.cs:636 | Two numbers have the same decimal text exactly when they are equal, so day texts and year labels are distinct |
| Text.Upper | HorizontalCalendar/HorizontalCalendar/CalendarControl.xaml.cs:689 | ToUpper keeps the length and the whitespace positions, so a name is blank after upper-casing exactly when it was blank before |
| Text.IsWhiteSpace | HorizontalCalendar/HorizontalCalendar/CalendarControl.xaml.cs:172 | Char.IsWhiteSpace never holds for a decimal digit, so a digit keeps a string non-blank |
| Text.IsBlank | HorizontalCalendar/HorizontalCalendar/CalendarControl.xaml.cs:627 | string.IsNullOrWhiteSpace: the empty string is blank, and a blank string holds no digit, so a day text is never blank |
| Dates.DaysInMonth | HorizontalCalendar/HorizontalCalendar/CalendarControl.xaml.cs:660 | A month has 28 to 31 days; fewer than 30 exactly for February, which has 29 exactly in leap years |
| Dates.MakeDate | HorizontalCalendar/HorizontalCalendar/CalendarControl.xaml.cs:340 | new DateTime(y, m, d) succeeds exactly when (y, m, d) is a valid date and then is that date at midnight; otherwise it throws |
| Dates.DayOfWeek | HorizontalCalendar/HorizontalCalendar/CalendarControl.xaml.cs:670 | DayOfWeek of a valid date is one of the seven enum values 0..6 |
| Dates.DayOfWeekName | HorizontalCalendar/HorizontalCalendar/CalendarControl.xaml.cs:670 | Convert.ToString of a DayOfWeek is the enum member name: 6 to 9 characters, starting with a capital letter |
| Dates.DayOfWeekNameInjective | HorizontalCalendar/HorizontalCalendar/CalendarControl.xaml.cs:670 | The seven names are distinct, so a day cell's DayFullName determines its weekday |
| Dates.NewYear2024IsMonday | HorizontalCalendar/HorizontalCalendar/CalendarControl.xaml.cs:670 | The day count anchored at 0001-01-01 (a Monday) puts 1 January 2024 on a Monday |
| Dates.DayNumberNext | HorizontalCalendar/HorizontalCalendar/CalendarControl.xaml.cs:665-667 | Consecutive dates, across month and year ends, have consecutive day numbers |
| Dates.DayOfWeekNext | HorizontalCalendar/HorizontalCalendar/CalendarControl.xaml.cs:670 | The day of the week advances by one, cyclically, from each date to the next |
| Dates.Less | HorizontalCalendar/HorizontalCalendar/CalendarControl.xaml.cs:673 | The DateTime operator < is irreflexive and never puts a later year before an earlier one |
| Dates.LessEq | HorizontalCalendar/HorizontalCalendar/CalendarControl.xaml.cs:677 | The DateTime operator <= is reflexive and never puts a later year before an earlier one |
| Dates.DayNumberOrder | HorizontalCalendar/HorizontalCalendar/CalendarControl.xaml.cs:673-677 | The calendar order of dates is the order of their day numbers |
| Dates.LessIsTickOrder | HorizontalCalendar/HorizontalCalendar/CalendarControl.xaml.cs:673-677 | Comparing DateTime values field by field agrees with .NET's comparison of tick counts, in both directions |
| CalendarData.IsActiveDay | HorizontalCalendar/HorizontalCalendar/CalendarControl.xaml.cs:668-684 | The IsActive rule: an active day is not after the maximum and not before the first of the minimum's month; a day before that first is inactive |
| CalendarData.DayCell | HorizontalCalendar/HorizontalCalendar/CalendarControl.xaml.cs:686-695 | A day cell's text parses back to its day, it carries the generated month and the yearValue field, its short name is not blank and it is not selected |
| CalendarData.PaddingCell | HorizontalCalendar/HorizontalCalendar/CalendarControl.xaml.cs:708-716 | A padding cell has a blank short name and a day text that parses to nothing, carries the month, is active and is not selected |
| CalendarData.MonthView | HorizontalCalendar/HorizontalCalendar/CalendarControl.xaml.cs:658-699 | A generated month has DaysInMonth + 6 cells, between 34 and 37 |
| CalendarData.MonthLabel | HorizontalCalendar/HorizontalCalendar/CalendarControl.xaml.cs:655 | The header label is the month name upper-cased: same length, and blank exactly when the name is |
| CalendarData.Tappable | HorizontalCalendar/HorizontalCalendar/CalendarControl.xaml.cs:172-192 | A cell gets a tap handler only when its short name is non-empty and it is active |
| CalendarData.TapTarget | HorizontalCalendar/HorizontalCalendar/CalendarControl.xaml.cs:340 | A tap selects a date exactly when the day text parses and (YearValue, Month, day) is a valid date, and then that date at midnight |
| CalendarData.MonthListFrom | HorizontalCalendar/HorizontalCalendar/CalendarControl.xaml.cs:624-632 | The month list is no longer than the names, and entry j has a non-blank name and MonthIndex j in decimal |
| CalendarData.YearLabels | HorizontalCalendar/HorizontalCalendar/CalendarControl.xaml.cs:634-637 | The year list has END_YEAR - FIRST_YEAR entries, each a non-empty digit string |
| CalendarData.YearLabelAt | HorizontalCalendar/HorizontalCalendar/CalendarControl.xaml.cs:636 | Entry i of the year list is the text of 2017 + i and parses back to 2017 + i |
| CalendarData.MonthListStep | HorizontalCalendar/HorizontalCalendar/CalendarControl.xaml.cs:625-631 | Each further name extends the month list by itself, numbered by the current count, unless it is blank |
| CalendarData.ActiveIffWithinBounds | HorizontalCalendar/HorizontalCalendar/CalendarControl.xaml.cs:668-684 | The asymmetric IsActive rule holds exactly when minimumDate <= day <= maximumDate |
| CalendarData.BoundaryDays | HorizontalCalendar/HorizontalCalendar/CalendarControl.xaml.cs:673-677 | The minimum's own day is active exactly when the minimum is a midnight not after the maximum; the maximum's own day is active exactly when it is not before the minimum |
| CalendarData.MonthViewLayout | HorizontalCalendar/HorizontalCalendar/CalendarControl.xaml.cs:658-718 | A generated month has DaysInMonth + 6 cells: three padding cells, day d at index d + 2, three padding cells |
| CalendarData.FebruaryCellCounts | HorizontalCalendar/HorizontalCalendar/CalendarControl.xaml.cs:658-699 | February 2024 gives 35 cells and February 2023 gives 34 |
| CalendarData.MonthViewDayNumbers | HorizontalCalendar/HorizontalCalendar/CalendarControl.xaml.cs:665-695 | The day cells read "1" .. "DaysInMonth" in strictly ascending order, and padding cells have empty day text and names |
| CalendarData.MonthViewFields | HorizontalCalendar/HorizontalCalendar/CalendarControl.xaml.cs:686-717 | Every cell has the generated month and is not selected; day cells carry the yearValue field as Year; padding cells have Year 0 and IsActive true |
| CalendarData.MonthViewActivity | HorizontalCalendar/HorizontalCalendar/CalendarControl.xaml.cs:667-694 | Day cell d is active exactly when minimumDate <= (y, m, d) <= maximumDate |
| CalendarData.MonthViewWeekdays | HorizontalCalendar/HorizontalCalendar/CalendarControl.xaml.cs:670-692 | Each day cell carries the full and upper-cased short names of its own weekday, and the weekday advances by one from cell to cell |
| CalendarData.TappableCells | HorizontalCalendar/HorizontalCalendar/CalendarControl.xaml.cs:172-192 | A cell gets a tap handler exactly when it is a day cell and active; no padding cell does |
| CalendarData.TapSelectsShownDay | HorizontalCalendar/HorizontalCalendar/CalendarControl.xaml.cs:340 | When the grid shows (YearValue, Month), a tap on tappable cell k selects day k - 2 of that month |
| CalendarData.StaleMonthTapFails | HorizontalCalendar/HorizontalCalendar/CalendarControl.xaml.cs:481-482 | With October 2026 regenerated and Month = 2, the tappable cell "31" names no date, so the DateTime constructor throws |
| CalendarData.February2024Activity | HorizontalCalendar/HorizontalCalendar/CalendarControl.xaml.cs:673-684 | With bounds 2024-01-01..2024-02-29 all 29 days of February 2024 are active; with minimum 2024-03-01 none is |
| CalendarData.MonthListContents | HorizontalCalendar/HorizontalCalendar/CalendarControl.xaml.cs:624-632 | The month list holds exactly the non-blank names in order, entry j having MonthIndex j in decimal |
| CalendarData.YearLabelsContents | HorizontalCalendar/HorizontalCalendar/CalendarControl.xaml.cs:634-637 | The year list has 83 entries "2017" .. "2099", entry i parsing to 2017 + i |
| CalendarControl.TapResult | HorizontalCalendar/HorizontalCalendar/CalendarControl.xaml.cs:295-341 | A tap is ignored exactly on a cell without handler, dropped exactly when no listener is attached, fails exactly when the date does not exist, and otherwise selects the valid date TapTarget reads from the cell's day text, in (YearValue, Month) |
| CalendarControl.StaleGridTapFails | HorizontalCalendar/HorizontalCalendar/CalendarControl.xaml.cs:596-601 | With March 2024 still on the grid after the Month setter alone sets Month = 2, the cell "31" keeps its tap handler and the tap throws |
| CalendarControl.BuildMonthList | HorizontalCalendar/HorizontalCalendar/CalendarControl.xaml.cs:624-632 | The constructor's month loop yields exactly MonthListFrom of the culture's month names |
| CalendarControl.BuildYearList | HorizontalCalendar/HorizontalCalendar/CalendarControl.xaml.cs:634-637 | The constructor's year loop yields exactly YearLabels |
| CalendarControl.TapOnShownMonth | HorizontalCalendar/HorizontalCalendar/CalendarControl.xaml.cs:295-341 | On the model's own month, a tap with a listener never throws, and it selects a date exactly for active day cells, that date being the cell's day |
| CalendarControl.CalendarControlModel.constructor | HorizontalCalendar/HorizontalCalendar/CalendarControl.xaml.cs:621-638 | Builds the month and year lists as specified; every field starts at its initialiser (today, MinValue, MaxValue, today's labels); the list and the grid are empty and the invariant holds |
| CalendarControl.CalendarControlModel.CreateCalenderData | HorizontalCalendar/HorizontalCalendar/CalendarControl.xaml.cs:645-702 | (0, 0) means today's month; afterwards the labels name the month, the list is exactly MonthView of it, IsCalendarAvailable is true and the invariant holds |
| CalendarControl.CalendarControlModel.AddDayRowsForCalendarList | HorizontalCalendar/HorizontalCalendar/CalendarControl.xaml.cs:665-696 | The day loop appends exactly the day cells of the month, classified by the IsActive rule |
| CalendarControl.CalendarControlModel.AddEmptyRowsForCalendarList | HorizontalCalendar/HorizontalCalendar/CalendarControl.xaml.cs:704-718 | Appends exactly three padding cells of the given month |
| CalendarControl.CalendarControlModel.SetMonth | HorizontalCalendar/HorizontalCalendar/CalendarControl.xaml.cs:596-601 | Stores the month and shows that month of YearValue in the list; the grid is left as it was |
| CalendarControl.CalendarControlModel.ChangeMonth | HorizontalCalendar/HorizontalCalendar/CalendarControl.xaml.cs:723-734 | Shows (YearValue, Month) in the list and rebuilds the grid from it, keeping the invariant |
| CalendarControl.CalendarControlModel.ChangeYear | HorizontalCalendar/HorizontalCalendar/CalendarControl.xaml.cs:739-750 | Shows (YearValue, Month) in the list and rebuilds the grid from it, keeping the invariant |
| CalendarControl.CalendarControlModel.SetMonthSelectedIndex | HorizontalCalendar/HorizontalCalendar/CalendarControl.xaml.cs:410-421 | The current index changes nothing; another index sets Month = index + 1 and shows that month on list and grid, so a repeated call changes nothing |
| CalendarControl.CalendarControlModel.SetYearSelectedIndex | HorizontalCalendar/HorizontalCalendar/CalendarControl.xaml.cs:431-441 | The current index changes nothing; another index sets YearValue = 2017 + index and Year to its label and shows Month of that year on list and grid |
| CalendarControl.CalendarControlModel.SetMinimumDate | HorizontalCalendar/HorizontalCalendar/CalendarControl.xaml.cs:479-489 | Stores the bound and shows today's month under the new bound on list and grid; Month and YearValue keep their values |
| CalendarControl.CalendarControlModel.SetMaximumDate | HorizontalCalendar/HorizontalCalendar/CalendarControl.xaml.cs:455-465 | Stores the bound and shows today's month under the new bound on list and grid; Month and YearValue keep their values |
| CalendarControl.CalendarControlModel.CreateCalendarGrid | HorizontalCalendar/HorizontalCalendar/CalendarControl.xaml.cs:77-193 | The grid afterwards holds exactly the cells of the current list, in order, one column per cell |
| CalendarControl.CalendarControlModel.TapCell | HorizontalCalendar/HorizontalCalendar/CalendarControl.xaml.cs:167-192 | A tap acts on the grid cell: only a tappable cell with a listener attached reacts; SelectedDate becomes (YearValue, Month, day) unless that throws; nothing else changes; when the grid is the current list and shows (YearValue, Month), no tap fails |

## Left out

- Drawing the grid: the labels, arrow images, colours, opacity, fonts and
  column sizes. This is rendering. Which cells the grid holds and which of
  them get a tap handler is modelled by `grid` and `CreateCalendarGrid`.
- The today highlight (`CalendarControl.xaml.cs:150-165`). It is rendering.
- Scrolling, `ScrollToAsync` and `Device.BeginInvokeOnMainThread`. These are
  asynchronous UI effects.
- `GetDateLayout` and the recolouring loops of `SelectedDateLayout`. They read
  state back from rendered labels. The model keeps the selected date as a
  field instead.
- `BindableProperty` plumbing, the static `viewModel`, `RaisePropertyChanged`
  and `INotifyPropertyChanged`. This is framework notification.
  `SelectedDateProperty` has no change callback, so a host write to
  `SelectedDate` never reaches the view model. The view's own `SelectedDate`
  (line 341) copies the view model's.
- The `OnSelectedDateChanged` callback body. It is host code; the model keeps
  only whether one is attached.
- The picker focus handlers `Handle_Tapped` and `Year_Tapped`. They are UI.
- The public `MonthList`, `YearList`, `CalenderList`, `MonthName`, `Year`,
  `YearValue`, `SelectedDate` and `IsCalendarAvailable` setters (lines
  492-617) when a host calls them directly. No modelled code calls the `MonthList`
  or `YearList` setters, so the picker lists are constants of the object.
  `CreateCalenderData` does call the `CalenderList` setter (line 647), and
  the model has that as its reset of the list. A direct host
  write to `YearValue` would leave day cells carrying the old Year, outside
  what `Valid()` states.
- Culture formatting beyond the `Locale` tables. `ToUpper` maps only ASCII
  letters.
- Text.ParseDecimal: accepts only plain digit strings. There is no sign, no
  surrounding whitespace and no Int32 overflow. Every string the model
  parses is such a string.
- The `maxDate` local of `CreateCalenderData` (line 669). It is computed and
  never read.
- Marking the tapped cell selected, and returning a selected index. The code
  does neither.
- `HorizontalCalendar/HorizontalCalendar/HorizontalCalendarPage.xaml.cs` is
  not part of this model. It only holds two auto-properties.
- CalendarControl.CalendarControlModel.CreateCalenderData: requires a valid
  year and month. It does not model the `ArgumentOutOfRangeException` that
  `new DateTime(currentYear, currentMonth, 1)` throws otherwise.
- CalendarControl.CalendarControlModel.SetMonth: requires a month in 1..12.
  It does not model the exception `CreateCalenderData` throws otherwise.
- CalendarControl.CalendarControlModel.SetMonthSelectedIndex: requires an
  index below the month list's length and below 12. It does not model the
  `ArgumentOutOfRangeException` thrown otherwise.
- CalendarControl.CalendarControlModel.SetYearSelectedIndex: requires an index
  within the 83-entry year list. Its initial value `Today.Year - 1` is far
  outside that list. The exception for an out-of-range index is not modelled.
- CalendarControl.CalendarControlModel.constructor: requires `today` at
  midnight and a culture with 13 month names and 7 non-blank abbreviated day
  names.
