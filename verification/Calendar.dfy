/**
 * Time values and the calendar (section 21.4.1 of ECMA-262): milliseconds since 1970,
 * in UTC, over the proleptic Gregorian calendar.
 */
module Calendar {

  const MS_PER_DAY := 86_400_000
  /** The largest magnitude of a time value; beyond it a date is invalid. */
  const MAX_TIME := 8_640_000_000_000_000
  /** The year of the earliest time value. */
  const FIRST_YEAR := -271_821

  datatype Civil = Civil(year: int, month: int, day: int, hour: int, minute: int, second: int, ms: int)

  predicate IsLeap(y: int) {
    y % 4 == 0 && (y % 100 != 0 || y % 400 == 0)
  }

  function DaysInYear(y: int): int {
    if IsLeap(y) then 366 else 365
  }

  /** The day number of the first of January. */
  function DayFromYear(y: int): int {
    365 * (y - 1970) + (y - 1969) / 4 - (y - 1901) / 100 + (y - 1601) / 400
  }

  function DaysIn(y: int, month: int): (n: int)
    requires 1 <= month <= 12
    ensures 28 <= n <= 31
  {
    if month == 2 then (if IsLeap(y) then 29 else 28)
    else if month == 4 || month == 6 || month == 9 || month == 11 then 30
    else 31
  }

  /** The days of the year before the first of a month. */
  function DaysBefore(y: int, month: int): int
    requires 1 <= month <= 13
  {
    if month == 1 then 0 else DaysBefore(y, month - 1) + DaysIn(y, month - 1)
  }

  predicate IsTime(c: Civil) {
    0 <= c.hour < 24 && 0 <= c.minute < 60 && 0 <= c.second < 60 && 0 <= c.ms < 1000
  }

  predicate IsCivil(c: Civil) {
    1 <= c.month <= 12 && 1 <= c.day <= DaysIn(c.year, c.month) && IsTime(c)
  }

  /** Also defined for a day past the end of its month, which rolls over. */
  function DayOf(y: int, month: int, day: int): int
    requires 1 <= month <= 12
  {
    DayFromYear(y) + DaysBefore(y, month) + day - 1
  }

  function TimeOf(c: Civil): int
    requires 1 <= c.month <= 12
  {
    DayOf(c.year, c.month, c.day) * MS_PER_DAY + c.hour * 3_600_000 + c.minute * 60_000 + c.second * 1000 + c.ms
  }

  // ---------------------------------------------------------------------
  // From a time value back to the calendar
  // ---------------------------------------------------------------------

  /** The year that begins last before or on a day. */
  function YearFrom(day: int, y: int): (r: int)
    requires DayFromYear(y) <= day
    ensures DayFromYear(r) <= day < DayFromYear(r + 1)
    decreases day - DayFromYear(y)
  {
    YearHasItsLength(y);
    if DayFromYear(y + 1) <= day then YearFrom(day, y + 1) else y
  }

  /** The month that begins last before or on a day of the year. */
  function MonthFrom(y: int, dayInYear: int, month: int): (r: int)
    requires 1 <= month <= 12 && DaysBefore(y, month) <= dayInYear
    ensures 1 <= r <= 12 && DaysBefore(y, r) <= dayInYear
    ensures r < 12 ==> dayInYear < DaysBefore(y, r + 1)
    decreases 12 - month
  {
    if month < 12 && DaysBefore(y, month + 1) <= dayInYear then MonthFrom(y, dayInYear, month + 1) else month
  }

  lemma FirstYearIsEarly(day: int)
    requires day >= -100_000_000
    ensures DayFromYear(FIRST_YEAR) <= day
  {
  }

  /** The fields a date prints. */
  function CivilOf(t: int): Civil
    requires -MAX_TIME <= t <= MAX_TIME
  {
    var day, inDay := t / MS_PER_DAY, t % MS_PER_DAY;
    FirstYearIsEarly(day);
    var y := YearFrom(day, FIRST_YEAR);
    var dayInYear := day - DayFromYear(y);
    var month := MonthFrom(y, dayInYear, 1);
    Civil(y, month, dayInYear - DaysBefore(y, month) + 1,
          inDay / 3_600_000, inDay / 60_000 % 60, inDay / 1000 % 60, inDay % 1000)
  }

  lemma FourthYear(y: int)
    ensures (y - 1968) / 4 - (y - 1969) / 4 == if y % 4 == 0 then 1 else 0
  {
  }

  lemma HundredthYear(y: int)
    ensures (y - 1900) / 100 - (y - 1901) / 100 == if y % 100 == 0 then 1 else 0
  {
  }

  lemma FourHundredthYear(y: int)
    ensures (y - 1600) / 400 - (y - 1601) / 400 == if y % 400 == 0 then 1 else 0
  {
  }

  lemma LeapDays(y: int)
    ensures (if y % 4 == 0 then 1 else 0) - (if y % 100 == 0 then 1 else 0) + (if y % 400 == 0 then 1 else 0)
         == if IsLeap(y) then 1 else 0
  {
  }

  /** Consecutive first days lie a year apart. */
  lemma YearHasItsLength(y: int)
    ensures DayFromYear(y + 1) == DayFromYear(y) + DaysInYear(y)
    ensures DayFromYear(1970) == 0
  {
    LeapDays(y);
    FourthYear(y);
    HundredthYear(y);
    FourHundredthYear(y);
  }

  /** The days before each month of a year that is not a leap year; one more from March on in a leap year. */
  lemma MonthTable(y: int)
    ensures var leap := if IsLeap(y) then 1 else 0;
            && DaysBefore(y, 1) == 0 && DaysBefore(y, 2) == 31
            && DaysBefore(y, 3) == 59 + leap && DaysBefore(y, 4) == 90 + leap && DaysBefore(y, 5) == 120 + leap
            && DaysBefore(y, 6) == 151 + leap && DaysBefore(y, 7) == 181 + leap && DaysBefore(y, 8) == 212 + leap
            && DaysBefore(y, 9) == 243 + leap && DaysBefore(y, 10) == 273 + leap && DaysBefore(y, 11) == 304 + leap
            && DaysBefore(y, 12) == 334 + leap && DaysBefore(y, 13) == 365 + leap
  {
    assert DaysBefore(y, 2) == 31;
    assert DaysBefore(y, 4) == DaysBefore(y, 3) + 31;
    assert DaysBefore(y, 6) == DaysBefore(y, 5) + 31;
    assert DaysBefore(y, 8) == DaysBefore(y, 7) + 31;
    assert DaysBefore(y, 10) == DaysBefore(y, 9) + 30;
    assert DaysBefore(y, 12) == DaysBefore(y, 11) + 30;
  }

  lemma MonthsFillTheYear(y: int)
    ensures DaysBefore(y, 13) == DaysInYear(y)
  {
    MonthTable(y);
  }

  /** The fields of a time value are a calendar date, and name that time value. */
  lemma TimeOfCivilOf(t: int)
    requires -MAX_TIME <= t <= MAX_TIME
    ensures var c := CivilOf(t); IsCivil(c) && TimeOf(c) == t
    ensures FIRST_YEAR <= CivilOf(t).year <= 275_760
  {
    var c := CivilOf(t);
    var day := t / MS_PER_DAY;
    FirstYearIsEarly(day);
    YearHasItsLength(c.year);
    MonthsFillTheYear(c.year);
    assert c.day <= DaysIn(c.year, c.month) by {
      assert DaysBefore(c.year, c.month + 1) == DaysBefore(c.year, c.month) + DaysIn(c.year, c.month);
    }
    TimeInDay(t % MS_PER_DAY);
    YearsInRange(day, c.year);
  }

  lemma TimeInDay(n: int)
    requires 0 <= n < MS_PER_DAY
    ensures n / 3_600_000 * 3_600_000 + n / 60_000 % 60 * 60_000 + n / 1000 % 60 * 1000 + n % 1000 == n
    ensures n / 3_600_000 < 24
  {
    assert n == n / 1000 * 1000 + n % 1000;
    var s := n / 1000;
    assert n / 60_000 == s / 60;
    assert n / 3_600_000 == s / 60 / 60;
    assert s == s / 60 * 60 + s % 60;
    assert s / 60 == s / 60 / 60 * 60 + s / 60 % 60;
  }

  lemma YearsInRange(day: int, y: int)
    requires -100_000_000 <= day <= 100_000_000
    requires DayFromYear(y) <= day < DayFromYear(y + 1)
    ensures FIRST_YEAR <= y <= 275_760
  {
    if y < FIRST_YEAR {
      YearsAscend(y + 1, FIRST_YEAR);
    }
    if y > 275_760 {
      YearsAscend(275_761, y);
    }
  }

  lemma {:induction false} YearsAscend(y: int, y': int)
    requires y <= y'
    ensures DayFromYear(y') >= DayFromYear(y) + 365 * (y' - y)
    decreases y' - y
  {
    if y < y' {
      YearsAscend(y, y' - 1);
      YearHasItsLength(y' - 1);
    }
  }

  lemma {:induction false} MonthsAscend(y: int, month: int, month': int)
    requires 1 <= month <= month' <= 13
    ensures DaysBefore(y, month) <= DaysBefore(y, month')
    decreases month' - month
  {
    if month < month' {
      MonthsAscend(y, month, month' - 1);
    }
  }

  // ---------------------------------------------------------------------
  // Calendar order is time order
  // ---------------------------------------------------------------------

  predicate DateBefore(a: Civil, b: Civil) {
    a.year < b.year || (a.year == b.year && (a.month < b.month || (a.month == b.month && a.day < b.day)))
  }

  predicate SameDate(a: Civil, b: Civil) {
    a.year == b.year && a.month == b.month && a.day == b.day
  }

  predicate TimeBefore(a: Civil, b: Civil) {
    || a.hour < b.hour
    || (a.hour == b.hour && (a.minute < b.minute
                             || (a.minute == b.minute && (a.second < b.second || (a.second == b.second && a.ms < b.ms)))))
  }

  predicate Before(a: Civil, b: Civil) {
    DateBefore(a, b) || (SameDate(a, b) && TimeBefore(a, b))
  }

  lemma DatesAscend(a: Civil, b: Civil)
    requires IsCivil(a) && IsCivil(b) && DateBefore(a, b)
    ensures DayOf(a.year, a.month, a.day) < DayOf(b.year, b.month, b.day)
  {
    assert DaysBefore(a.year, a.month + 1) == DaysBefore(a.year, a.month) + DaysIn(a.year, a.month);
    if a.year < b.year {
      YearHasItsLength(a.year);
      YearsAscend(a.year + 1, b.year);
      MonthsFillTheYear(a.year);
      MonthsAscend(a.year, a.month + 1, 13);
      MonthsAscend(b.year, 1, b.month);
    } else if a.month < b.month {
      MonthsAscend(a.year, a.month + 1, b.month);
    }
  }

  lemma TimesAscend(a: Civil, b: Civil)
    requires IsCivil(a) && IsCivil(b) && Before(a, b)
    ensures TimeOf(a) < TimeOf(b)
  {
    if DateBefore(a, b) {
      DatesAscend(a, b);
    }
  }

  /** Earlier on the calendar is earlier in time, and the other way round; no two dates share a time value. */
  lemma CalendarOrderIsTimeOrder(a: Civil, b: Civil)
    requires IsCivil(a) && IsCivil(b)
    ensures Before(a, b) <==> TimeOf(a) < TimeOf(b)
    ensures a == b <==> TimeOf(a) == TimeOf(b)
  {
    if Before(a, b) {
      TimesAscend(a, b);
    } else if Before(b, a) {
      TimesAscend(b, a);
    }
  }

  /** A calendar date is read back from its time value. */
  lemma CivilOfTimeOf(c: Civil)
    requires IsCivil(c) && -MAX_TIME <= TimeOf(c) <= MAX_TIME
    ensures CivilOf(TimeOf(c)) == c
  {
    TimeOfCivilOf(TimeOf(c));
    CalendarOrderIsTimeOrder(CivilOf(TimeOf(c)), c);
  }
}
