/** The month grid of the calendar screen: `getDaysInMonth` lays out one
    month as a row-major list of cells, seven to a week, Sunday first.  The
    cells before the 1st are blank, then come days 1 to the last day of the
    month.  JavaScript's `Date` constructor is replaced by the day arithmetic
    of the `Dates` module. */
module Calendar {
  import opened Optional
  import opened Dates

  /** The column headers, Sunday first, as `getDay()` numbers the weekdays. */
  const WEEKDAY_HEADER: seq<string> := ["Zo", "Ma", "Di", "Wo", "Do", "Vr", "Za"]

  /** `new Date(year, month, day)` reads a year of 0 to 99 as 1900 to 1999;
      every other year is taken as given. */
  function ConstructorYear(year: int): (y: int)
    ensures 0 <= year <= 99 ==> y == 1900 + year
    ensures (year < 0 || 99 < year) ==> y == year
  {
    if 0 <= year <= 99 then 1900 + year else year
  }

  /** `new Date(year, month0 + 1, 0).getDate()`: day 0 of the next month is
      the last day of this one. */
  function LastDay(year: int, month0: int): (n: int)
    requires 0 <= month0 < 12
    ensures 28 <= n <= 31
  {
    DaysInMonth(ConstructorYear(year), month0 + 1)
  }

  /** `new Date(year, month0, 1).getDay()`: the weekday of the 1st, which is
      also the number of blank cells in front of it. */
  function StartingDayOfWeek(year: int, month0: int): (w: int)
    requires 0 <= month0 < 12
    ensures 0 <= w < |WEEKDAY_HEADER|
  {
    Weekday(Date(ConstructorYear(year), month0 + 1, 1))
  }

  /** The grid of the month `month0` (0 = January, as `getMonth()`) of
      `year`: `None` for a blank cell, `Some(date)` for a day. */
  method DaysInMonthGrid(year: int, month0: int) returns (days: seq<Option<Date>>)
    requires 0 <= month0 < 12
    ensures |days| == StartingDayOfWeek(year, month0) + LastDay(year, month0)
    ensures |days| <= 37
    ensures forall i :: 0 <= i < |days| ==> (days[i].None? <==> i < StartingDayOfWeek(year, month0))
    ensures forall i :: StartingDayOfWeek(year, month0) <= i < |days| ==>
      days[i] == Some(Date(ConstructorYear(year), month0 + 1, i - StartingDayOfWeek(year, month0) + 1))
    ensures forall i :: 0 <= i < |days| && days[i].Some? ==>
      IsValid(days[i].value) && Weekday(days[i].value) == i % 7
  {
    var y := ConstructorYear(year);
    var start := StartingDayOfWeek(year, month0);
    var count := LastDay(year, month0);
    days := [];
    var i := 0;
    while i < start
      invariant 0 <= i <= start
      invariant |days| == i
      invariant forall k :: 0 <= k < i ==> days[k] == None
    {
      days := days + [None];
      i := i + 1;
    }
    var day := 1;
    while day <= count
      invariant 1 <= day <= count + 1
      invariant |days| == start + day - 1
      invariant forall k :: 0 <= k < start ==> days[k] == None
      invariant forall k :: start <= k < |days| ==> days[k] == Some(Date(y, month0 + 1, k - start + 1))
    {
      days := days + [Some(Date(y, month0 + 1, day))];
      day := day + 1;
    }
    forall i | 0 <= i < |days| && days[i].Some?
      ensures IsValid(days[i].value) && Weekday(days[i].value) == i % 7
    {
      WeekdayInMonth(y, month0 + 1, i - start + 1);
    }
  }

  /** The last day of the month is where the next month starts: day 0 of
      month `month0 + 1` (which rolls December over into January) is
      `LastDay` days after the 1st. */
  lemma LastDayIsDayBeforeNextMonth(year: int, month0: int)
    requires 0 <= month0 < 12
    ensures var y := ConstructorYear(year);
            var next := if month0 == 11 then Date(y + 1, 1, 1) else Date(y, month0 + 2, 1);
            DayNumber(next) - DayNumber(Date(y, month0 + 1, 1)) == LastDay(year, month0)
  {
    var y := ConstructorYear(year);
    MonthsAccumulate(y, month0 + 1);
    NextYear(y);
  }

  /** The grid of the next month starts in the column after this month's last
      day, so consecutive months continue the same week rows. */
  lemma NextMonthStartsAfterLastDay(year: int, month0: int)
    requires 0 <= month0 < 11
    ensures StartingDayOfWeek(year, month0 + 1) == (StartingDayOfWeek(year, month0) + LastDay(year, month0)) % 7
  {
    NextMonthWeekday(ConstructorYear(year), month0 + 1);
  }

  /** A two-digit year and the same year in the 1900s give the same grid:
      the grid of year 25 is the grid of 1925, not of 2025. */
  lemma TwoDigitYearsAlias(year: int, month0: int)
    requires 0 <= year <= 99 && 0 <= month0 < 12
    ensures LastDay(year, month0) == LastDay(1900 + year, month0)
    ensures StartingDayOfWeek(year, month0) == StartingDayOfWeek(1900 + year, month0)
    ensures StartingDayOfWeek(year, month0) == Weekday(Date(1900 + year, month0 + 1, 1))
  {
  }

  /** February has 29 days exactly in the leap years of the Gregorian rule. */
  lemma FebruaryLength(year: int)
    ensures var y := ConstructorYear(year);
            LastDay(year, 1) == 29 <==> (y % 4 == 0 && (y % 100 != 0 || y % 400 == 0))
    ensures LastDay(year, 1) == 28 || LastDay(year, 1) == 29
  {
  }

  /** Sunday is column 0: 12 October 2025 was a Sunday and 1 January 2001
      a Monday. */
  lemma SundayFirst()
    ensures WEEKDAY_HEADER[Weekday(Date(2025, 10, 12))] == "Zo"
    ensures WEEKDAY_HEADER[Weekday(Date(2001, 1, 1))] == "Ma"
  {
  }
}
