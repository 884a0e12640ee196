/** Calendar dates on integers, following Python's `datetime.date`: the
    proleptic Gregorian calendar, years 1 to 9999, day numbers as returned by
    `toordinal()` (1 January of year 1 is day 1) and weekdays as returned by
    `weekday()` (Monday is 0). */
module Dates {
  import opened Outcomes

  datatype Date = Date(year: int, month: int, day: int)

  const MinYear: int := 1
  const MaxYear: int := 9999

  predicate IsLeapYear(y: int)
  {
    y % 4 == 0 && (y % 100 != 0 || y % 400 == 0)
  }

  function DaysInMonth(y: int, m: int): (n: int)
    requires 1 <= m <= 12
    ensures 28 <= n <= 31
  {
    if m == 2 then (if IsLeapYear(y) then 29 else 28)
    else if m == 4 || m == 6 || m == 9 || m == 11 then 30
    else 31
  }

  function DaysInYear(y: int): int
  {
    if IsLeapYear(y) then 366 else 365
  }

  /** A Gregorian date from year 1 on, with no upper bound on the year (the
      value `today + 7 days` can pass 31 December 9999). */
  predicate IsCalendarDate(d: Date)
  {
    MinYear <= d.year && 1 <= d.month <= 12 && 1 <= d.day <= DaysInMonth(d.year, d.month)
  }

  /** A date that `datetime.date` can hold. */
  predicate IsValid(d: Date)
  {
    IsCalendarDate(d) && d.year <= MaxYear
  }

  type ValidDate = d: Date | IsValid(d) witness Date(1, 1, 1)

  function DaysBeforeYear(y: int): int
    requires MinYear <= y
  {
    var p := y - 1;
    p * 365 + p / 4 - p / 100 + p / 400
  }

  function DaysBeforeMonth(y: int, m: int): int
    requires 1 <= m <= 12
  {
    [0, 31, 59, 90, 120, 151, 181, 212, 243, 273, 304, 334][m - 1]
      + (if m > 2 && IsLeapYear(y) then 1 else 0)
  }

  /** `date.toordinal()`. */
  function DayNumber(d: Date): int
    requires IsCalendarDate(d)
  {
    DaysBeforeYear(d.year) + DaysBeforeMonth(d.year, d.month) + d.day
  }

  /** 0 is Monday, 6 is Sunday. */
  type DayOfWeek = w: int | 0 <= w < 7

  /** `date.weekday()`. */
  function Weekday(d: Date): DayOfWeek
    requires IsCalendarDate(d)
  {
    (DayNumber(d) + 6) % 7
  }

  /** `a < b` on `datetime.date`: year, then month, then day. */
  predicate Precedes(a: Date, b: Date)
  {
    a.year < b.year
    || (a.year == b.year && (a.month < b.month || (a.month == b.month && a.day < b.day)))
  }

  /** `a <= b` on `datetime.date`. */
  predicate NotLater(a: Date, b: Date)
  {
    !Precedes(b, a)
  }

  /** A year divisible by 400 is divisible by 100. */
  lemma CenturyOfFourHundred(y: int)
    requires y % 400 == 0
    ensures y % 100 == 0
  {
    var q := y / 400;
    assert y == 100 * (4 * q);
  }

  /** A year divisible by 100 is divisible by 4. */
  lemma FourOfCentury(y: int)
    requires y % 100 == 0
    ensures y % 4 == 0
  {
    var q := y / 100;
    assert y == 4 * (25 * q);
  }

  lemma DaysBeforeYearStep(y: int)
    requires MinYear <= y
    ensures DaysBeforeYear(y + 1) == DaysBeforeYear(y) + DaysInYear(y)
  {
    if y % 400 == 0 { CenturyOfFourHundred(y); }
    if y % 100 == 0 { FourOfCentury(y); }
    var a := if y % 4 == 0 then 1 else 0;
    var b := if y % 100 == 0 then 1 else 0;
    var c := if y % 400 == 0 then 1 else 0;
    assert y / 4 == (y - 1) / 4 + a;
    assert y / 100 == (y - 1) / 100 + b;
    assert y / 400 == (y - 1) / 400 + c;
    assert DaysBeforeYear(y + 1) == DaysBeforeYear(y) + 365 + a - b + c;
    assert DaysInYear(y) == 365 + a - b + c;
  }

  lemma {:induction false} DaysBeforeYearGrowth(y1: int, y2: int)
    requires MinYear <= y1 < y2
    ensures DaysBeforeYear(y1) + DaysInYear(y1) <= DaysBeforeYear(y2)
    decreases y2 - y1
  {
    DaysBeforeYearStep(y1);
    if y1 + 1 < y2 {
      DaysBeforeYearGrowth(y1 + 1, y2);
    }
  }

  /** A date's day number lies inside its year's block of day numbers. */
  lemma DayNumberWithinYear(d: Date)
    requires IsCalendarDate(d)
    ensures DaysBeforeYear(d.year) < DayNumber(d) <= DaysBeforeYear(d.year) + DaysInYear(d.year)
  {
  }

  lemma DaysBeforeMonthGrowth(y: int, m1: int, m2: int)
    requires 1 <= m1 < m2 <= 12
    ensures DaysBeforeMonth(y, m1) + DaysInMonth(y, m1) <= DaysBeforeMonth(y, m2)
  {
  }

  /** Comparing dates the way `datetime.date` does agrees with comparing day
      numbers, so `toordinal` is an order isomorphism. */
  lemma PrecedesIffSmallerDayNumber(a: Date, b: Date)
    requires IsCalendarDate(a) && IsCalendarDate(b)
    ensures Precedes(a, b) <==> DayNumber(a) < DayNumber(b)
  {
    DayNumberWithinYear(a);
    DayNumberWithinYear(b);
    if a.year < b.year {
      DaysBeforeYearGrowth(a.year, b.year);
    } else if b.year < a.year {
      DaysBeforeYearGrowth(b.year, a.year);
    } else if a.month < b.month {
      DaysBeforeMonthGrowth(a.year, a.month, b.month);
    } else if b.month < a.month {
      DaysBeforeMonthGrowth(a.year, b.month, a.month);
    }
  }

  /** Distinct calendar dates have distinct day numbers. */
  lemma DayNumberInjective(a: Date, b: Date)
    requires IsCalendarDate(a) && IsCalendarDate(b)
    requires DayNumber(a) == DayNumber(b)
    ensures a == b
  {
    PrecedesIffSmallerDayNumber(a, b);
    PrecedesIffSmallerDayNumber(b, a);
  }

  /** The following day. */
  function NextDay(d: Date): (e: Date)
    requires IsCalendarDate(d)
    ensures IsCalendarDate(e)
  {
    if d.day < DaysInMonth(d.year, d.month) then d.(day := d.day + 1)
    else if d.month < 12 then Date(d.year, d.month + 1, 1)
    else Date(d.year + 1, 1, 1)
  }

  /** The following day has the next day number. */
  lemma NextDayNumber(d: Date)
    requires IsCalendarDate(d)
    ensures DayNumber(NextDay(d)) == DayNumber(d) + 1
  {
    if d.day == DaysInMonth(d.year, d.month) && d.month == 12 {
      DaysBeforeYearStep(d.year);
    }
  }

  /** `d + timedelta(days=n)`, before the range check of `datetime.date`. */
  function AddDays(d: Date, n: nat): (e: Date)
    requires IsCalendarDate(d)
    ensures IsCalendarDate(e)
    decreases n
  {
    if n == 0 then d else AddDays(NextDay(d), n - 1)
  }

  /** Adding n days adds n to the day number. */
  lemma {:induction false} AddDaysNumber(d: Date, n: nat)
    requires IsCalendarDate(d)
    ensures DayNumber(AddDays(d, n)) == DayNumber(d) + n
    decreases n
  {
    if n > 0 {
      NextDayNumber(d);
      AddDaysNumber(NextDay(d), n - 1);
    }
  }

  /** `d.replace(year=y)`: ValueError when the same day and month do not
      exist in year `y`, that is for 29 February in a common year (and for a
      year out of range). */
  function WithYear(d: ValidDate, y: int): (r: Result<ValidDate>)
    ensures r.Ok? <==> MinYear <= y <= MaxYear && !(d.month == 2 && d.day == 29 && !IsLeapYear(y))
    ensures r.Ok? ==> r.value == Date(y, d.month, d.day)
    ensures r.Err? ==> r.error == NoSuchDay
  {
    var e := Date(y, d.month, d.day);
    if IsValid(e) then Ok(e) else Err(NoSuchDay)
  }
}
