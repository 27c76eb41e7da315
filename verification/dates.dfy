/** Calendar dates of the proleptic Gregorian calendar and their text form
    `YYYY-MM-DD`, the extended calendar-date format of section 4.1.2.2 of
    ISO 8601:2004, which is how the app stores every event date.  Day numbers
    and weekdays replace JavaScript's `Date` arithmetic (`getTime`, `getDay`,
    `new Date(y, m + 1, 0).getDate()`). */
module Dates {
  import opened Optional
  import Decimal
  import LexOrder

  /** A calendar day; `month` runs 1..12 as written in the text form
      (JavaScript's `getMonth()` is `month - 1`). */
  datatype Date = Date(year: int, month: int, day: int)

  predicate IsLeapYear(year: int) {
    year % 4 == 0 && (year % 100 != 0 || year % 400 == 0)
  }

  function YearLength(year: int): int {
    if IsLeapYear(year) then 366 else 365
  }

  /** The number of the last day of a month. */
  function DaysInMonth(year: int, month: int): (n: int)
    requires 1 <= month <= 12
    ensures 28 <= n <= 31
  {
    if month == 2 then (if IsLeapYear(year) then 29 else 28)
    else if month == 4 || month == 6 || month == 9 || month == 11 then 30
    else 31
  }

  predicate IsValid(d: Date) {
    1 <= d.month <= 12 && 1 <= d.day <= DaysInMonth(d.year, d.month)
  }

  /** Days from 0001-01-01 to the 1st of January of `year`; negative before
      year 1.  Dafny's `/` floors for a positive divisor, so the leap-year
      count is right for every year. */
  function DaysBeforeYear(year: int): int {
    var p := year - 1;
    365 * p + p / 4 - p / 100 + p / 400
  }

  /** Days from the 1st of January to the 1st of `month`; month 13 stands
      for the 1st of January of the next year. */
  function DaysBeforeMonth(year: int, month: int): int
    requires 1 <= month <= 13
  {
    var cumulative := [0, 31, 59, 90, 120, 151, 181, 212, 243, 273, 304, 334, 365];
    cumulative[month - 1] + (if month > 2 && IsLeapYear(year) then 1 else 0)
  }

  /** Days since 0001-01-01 (day 0).  Two valid dates are a whole number of
      days apart, so `getTime()` differences compare like day numbers. */
  function DayNumber(d: Date): int
    requires 1 <= d.month <= 12
  {
    DaysBeforeYear(d.year) + DaysBeforeMonth(d.year, d.month) + d.day - 1
  }

  /** Day of the week, Sunday = 0 as JavaScript's `getDay()`; 0001-01-01
      was a Monday. */
  function Weekday(d: Date): (w: int)
    requires 1 <= d.month <= 12
    ensures 0 <= w < 7
  {
    (DayNumber(d) + 1) % 7
  }

  /** Month lengths add up: the 1st of the next month is `DaysInMonth` days
      after the 1st of this one, and month 13 closes the year. */
  lemma MonthsAccumulate(year: int, month: int)
    requires 1 <= month <= 12
    ensures DaysBeforeMonth(year, month + 1) == DaysBeforeMonth(year, month) + DaysInMonth(year, month)
    ensures DaysBeforeMonth(year, 13) == YearLength(year)
  {
  }

  lemma FloorSteps(x: int)
    ensures x / 4 - (x - 1) / 4 == (if x % 4 == 0 then 1 else 0)
    ensures x / 100 - (x - 1) / 100 == (if x % 100 == 0 then 1 else 0)
    ensures x / 400 - (x - 1) / 400 == (if x % 400 == 0 then 1 else 0)
  {
  }

  lemma ModShift(a: int, b: int)
    ensures (a % 7 + b) % 7 == (a + b) % 7
  {
  }

  /** A year has `YearLength` days: the leap-year rule and the day count
      agree. */
  lemma NextYear(year: int)
    ensures DaysBeforeYear(year + 1) == DaysBeforeYear(year) + YearLength(year)
  {
    FloorSteps(year);
  }

  lemma {:induction false} YearsAscend(y1: int, y2: int)
    requires y1 < y2
    ensures DaysBeforeYear(y1 + 1) <= DaysBeforeYear(y2)
    decreases y2 - y1
  {
    if y1 + 1 < y2 {
      YearsAscend(y1 + 1, y2);
      NextYear(y1 + 1);
    }
  }

  /** A valid date's day number falls inside its year and its month. */
  lemma DayNumberInYear(d: Date)
    requires IsValid(d)
    ensures DaysBeforeYear(d.year) <= DayNumber(d) < DaysBeforeYear(d.year + 1)
    ensures DayNumber(d) < DaysBeforeYear(d.year) + DaysBeforeMonth(d.year, d.month + 1)
  {
    MonthsAccumulate(d.year, d.month);
    NextYear(d.year);
  }

  /** Chronological order on dates, field by field. */
  predicate Before(a: Date, b: Date) {
    a.year < b.year || (a.year == b.year && (a.month < b.month || (a.month == b.month && a.day < b.day)))
  }

  /** Field order is time order: on valid dates `Before` holds exactly when
      the day number, and so `getTime()`, is smaller. */
  lemma ChronologicalOrder(a: Date, b: Date)
    requires IsValid(a) && IsValid(b)
    ensures Before(a, b) <==> DayNumber(a) < DayNumber(b)
    ensures a == b <==> DayNumber(a) == DayNumber(b)
  {
    DayNumberInYear(a);
    DayNumberInYear(b);
    if a.year < b.year {
      YearsAscend(a.year, b.year);
    } else if b.year < a.year {
      YearsAscend(b.year, a.year);
    }
  }

  /** The shape `DDDD-DD-DD`: ten characters, digits with dashes at 4 and 7. */
  predicate IsWellFormed(s: string) {
    && |s| == 10 && s[4] == '-' && s[7] == '-'
    && Decimal.AllDigits(s[..4]) && Decimal.AllDigits(s[5..7]) && Decimal.AllDigits(s[8..])
  }

  function Fields(s: string): Date
    requires IsWellFormed(s)
  {
    Date(Decimal.Value(s[..4]), Decimal.Value(s[5..7]), Decimal.Value(s[8..]))
  }

  /** The fields of a well-formed text, digit by digit. */
  lemma FieldsByDigit(s: string)
    requires IsWellFormed(s)
    ensures Fields(s) == Date(
      1000 * Decimal.DigitValue(s[0]) + 100 * Decimal.DigitValue(s[1]) + 10 * Decimal.DigitValue(s[2]) + Decimal.DigitValue(s[3]),
      10 * Decimal.DigitValue(s[5]) + Decimal.DigitValue(s[6]),
      10 * Decimal.DigitValue(s[8]) + Decimal.DigitValue(s[9]))
  {
    assert s[..4][0] == s[0] && s[..4][1] == s[1] && s[..4][2] == s[2] && s[..4][3] == s[3];
    assert s[5..7][0] == s[5] && s[5..7][1] == s[6] && s[8..][0] == s[8] && s[8..][1] == s[9];
    assert s[..4][..3] == s[..3] && s[..3][..2] == s[..2] && s[..2][..1] == s[..1] && s[..1][..0] == [];
    assert Decimal.Value(s[..1]) == Decimal.DigitValue(s[0]);
    assert Decimal.Value(s[..2]) == 10 * Decimal.DigitValue(s[0]) + Decimal.DigitValue(s[1]);
    assert Decimal.Value(s[..3]) == 10 * Decimal.Value(s[..2]) + Decimal.DigitValue(s[2]);
    assert Decimal.Value(s[..4]) == 10 * Decimal.Value(s[..3]) + Decimal.DigitValue(s[3]);
    assert s[5..7][..1] == [s[5]] && [s[5]][..0] == [];
    assert s[8..][..1] == [s[8]] && [s[8]][..0] == [];
    assert Decimal.Value([s[5]]) == Decimal.DigitValue(s[5]);
    assert Decimal.Value([s[8]]) == Decimal.DigitValue(s[8]);
  }

  /** The date a `YYYY-MM-DD` string names, or `None` when the string is not
      of that shape or names no day of the calendar (`2025-02-30`). */
  function Parse(s: string): (r: Option<Date>)
    ensures r.Some? ==> IsValid(r.value) && 0 <= r.value.year <= 9999
    ensures r.Some? ==> IsWellFormed(s) && r.value == Fields(s)
    ensures IsWellFormed(s) && IsValid(Fields(s)) ==> r.Some?
  {
    if IsWellFormed(s) && IsValid(Fields(s)) then
      Decimal.ValueBound(s[..4]);
      Some(Fields(s))
    else None
  }

  /** The `YYYY-MM-DD` text of a date of years 0000..9999. */
  function Format(d: Date): (s: string)
    requires IsValid(d) && 0 <= d.year <= 9999
    ensures |s| == 10
  {
    Decimal.Padded(d.year, 4) + "-" + Decimal.Padded(d.month, 2) + "-" + Decimal.Padded(d.day, 2)
  }

  lemma ParseFormat(d: Date)
    requires IsValid(d) && 0 <= d.year <= 9999
    ensures Parse(Format(d)) == Some(d)
  {
    var s := Format(d);
    assert s[..4] == Decimal.Padded(d.year, 4);
    assert s[5..7] == Decimal.Padded(d.month, 2);
    assert s[8..] == Decimal.Padded(d.day, 2);
  }

  lemma FormatParse(s: string)
    requires Parse(s).Some?
    ensures Format(Parse(s).value) == s
  {
    Decimal.PaddedValue(s[..4]);
    Decimal.PaddedValue(s[5..7]);
    Decimal.PaddedValue(s[8..]);
    var d := Parse(s).value;
    assert Decimal.Padded(d.year, 4) == s[..4];
    assert Decimal.Padded(d.month, 2) == s[5..7];
    assert Decimal.Padded(d.day, 2) == s[8..];
    assert s == s[..4] + "-" + s[5..7] + "-" + s[8..];
  }

  /** String order on well-formed texts is field order on the dates. */
  lemma {:induction false} TextOrderIsFieldOrder(s: string, t: string)
    requires IsWellFormed(s) && IsWellFormed(t)
    ensures LexOrder.Less(s, t) <==> Before(Fields(s), Fields(t))
    ensures s == t <==> Fields(s) == Fields(t)
  {
    Decimal.LessIsNumericLess(s[..4], t[..4]);
    Decimal.LessIsNumericLess(s[5..7], t[5..7]);
    Decimal.LessIsNumericLess(s[8..], t[8..]);
    assert s == s[..4] + ([s[4]] + (s[5..7] + ([s[7]] + s[8..])));
    assert t == t[..4] + ([t[4]] + (t[5..7] + ([t[7]] + t[8..])));
    LexOrder.ConcatEqualLength(s[..4], [s[4]] + (s[5..7] + ([s[7]] + s[8..])),
                               t[..4], [t[4]] + (t[5..7] + ([t[7]] + t[8..])));
    LexOrder.ConcatEqualLength([s[4]], s[5..7] + ([s[7]] + s[8..]),
                               [t[4]], t[5..7] + ([t[7]] + t[8..]));
    LexOrder.ConcatEqualLength(s[5..7], [s[7]] + s[8..], t[5..7], [t[7]] + t[8..]);
    LexOrder.ConcatEqualLength([s[7]], s[8..], [t[7]], t[8..]);
    LexOrder.Irreflexive("-");
  }

  /** The modelling basis of the sorted views: for two stored dates that
      parse, the string order is the order of their day numbers, the order
      the source's `getTime()` comparator sorts by, and equal strings are
      equal days. */
  lemma TextOrderIsChronological(s: string, t: string)
    requires Parse(s).Some? && Parse(t).Some?
    ensures LexOrder.Less(s, t) <==> DayNumber(Parse(s).value) < DayNumber(Parse(t).value)
    ensures s == t <==> DayNumber(Parse(s).value) == DayNumber(Parse(t).value)
  {
    TextOrderIsFieldOrder(s, t);
    ChronologicalOrder(Parse(s).value, Parse(t).value);
  }

  /** Consecutive days have consecutive weekdays: within a month the weekday
      of day `d` is the weekday of the 1st shifted by `d - 1`. */
  lemma WeekdayInMonth(year: int, month: int, day: int)
    requires 1 <= month <= 12
    ensures Weekday(Date(year, month, day)) == (Weekday(Date(year, month, 1)) + day - 1) % 7
  {
    var first := DayNumber(Date(year, month, 1));
    assert DayNumber(Date(year, month, day)) == first + day - 1;
    ModShift(first + 1, day - 1);
  }

  /** The 1st of the next month falls `DaysInMonth` weekdays after the 1st of
      this one (December rolls over into January of the next year). */
  lemma NextMonthWeekday(year: int, month: int)
    requires 1 <= month <= 12
    ensures var next := if month == 12 then Date(year + 1, 1, 1) else Date(year, month + 1, 1);
            Weekday(next) == (Weekday(Date(year, month, 1)) + DaysInMonth(year, month)) % 7
  {
    var first := DayNumber(Date(year, month, 1));
    var next := if month == 12 then Date(year + 1, 1, 1) else Date(year, month + 1, 1);
    MonthsAccumulate(year, month);
    NextYear(year);
    assert DayNumber(next) == first + DaysInMonth(year, month);
    ModShift(first + 1, DaysInMonth(year, month));
  }
}
