/**
 The proleptic Gregorian calendar in UTC, as Go's time package keeps it. Days are numbered from 1 January of year 1,
 a Monday; minutes from its midnight.
 */
module Calendar {
  const MINUTES_PER_DAY: int := 1440

  predicate Leap(year: int) {
    year % 4 == 0 && (year % 100 != 0 || year % 400 == 0)
  }

  /** Days from the epoch to 1 January of the year. */
  function YearStart(year: int): int {
    365 * (year - 1) + (year - 1) / 4 - (year - 1) / 100 + (year - 1) / 400
  }

  function YearLength(year: int): int {
    if Leap(year) then 366 else 365
  }

  /** Days before the first of the month, for months 1 to 13 (the 13th is next January). */
  function MonthStart(year: int, month: int): int
    requires 1 <= month <= 13
  {
    [0, 31, 59, 90, 120, 151, 181, 212, 243, 273, 304, 334, 365][month - 1] + if month > 2 && Leap(year) then 1 else 0
  }

  function MonthLength(year: int, month: int): int
    requires 1 <= month <= 12
  {
    MonthStart(year, month + 1) - MonthStart(year, month)
  }

  /** The number of the d-th day of a month. As in time.Date, d may lie past the end of the month, and month 13 is next January. */
  function DayNumber(year: int, month: int, d: int): int
    requires 1 <= month <= 13
  {
    YearStart(year) + MonthStart(year, month) + d - 1
  }

  lemma YearsFollow(year: int)
    ensures YearStart(year + 1) == YearStart(year) + YearLength(year)
  {
    QuotientSteps(year, 4);
    QuotientSteps(year, 100);
    QuotientSteps(year, 400);
    CenturiesAreFourths(year);
  }

  lemma QuotientSteps(year: int, d: int)
    requires d == 4 || d == 100 || d == 400
    ensures year / d == (year - 1) / d + if year % d == 0 then 1 else 0
  {
  }

  lemma CenturiesAreFourths(year: int)
    ensures year % 100 == 0 ==> year % 4 == 0
    ensures year % 400 == 0 ==> year % 100 == 0
  {
  }

  lemma {:induction false} LaterYearsStartLater(a: int, b: int)
    requires a <= b
    ensures YearStart(a) + 365 * (b - a) <= YearStart(b) <= YearStart(a) + 366 * (b - a)
    decreases b - a
  {
    hide YearStart;
    if a < b {
      LaterYearsStartLater(a, b - 1);
      YearsFollow(b - 1);
    }
  }

  // ----------------------------------------------------------- days to dates

  function SearchYear(n: int, year: int): (y: int)
    requires YearStart(year) <= n
    ensures YearStart(y) <= n < YearStart(y + 1)
    decreases n - YearStart(year)
  {
    hide YearStart, Leap;
    YearsFollow(year);
    if n < YearStart(year + 1) then year else SearchYear(n, year + 1)
  }

  /** The year of a day. */
  function YearOf(n: int): (y: int)
    ensures YearStart(y) <= n < YearStart(y + 1)
  {
    CycleStart(n / 146097);
    SearchYear(n, 400 * (n / 146097) + 1)
  }

  lemma CycleStart(c: int)
    ensures YearStart(400 * c + 1) == 146097 * c
  {
    assert 400 * c / 400 == c;
  }

  lemma YearIsUnique(n: int, y: int)
    requires YearStart(y) <= n < YearStart(y + 1)
    ensures YearOf(n) == y
  {
    hide YearStart;
    var x := YearOf(n);
    if x < y { LaterYearsStartLater(x + 1, y); }
    if y < x { LaterYearsStartLater(y + 1, x); }
  }

  function SearchMonth(year: int, day: int, month: int): (m: int)
    requires 1 <= month <= 12 && MonthStart(year, month) <= day < YearLength(year)
    ensures month <= m <= 12 && MonthStart(year, m) <= day < MonthStart(year, m + 1)
    decreases 12 - month
  {
    if day < MonthStart(year, month + 1) then month else SearchMonth(year, day, month + 1)
  }

  function MonthOf(n: int): (m: int)
    ensures 1 <= m <= 12 && DayNumber(YearOf(n), m, 1) <= n < DayNumber(YearOf(n), m + 1, 1)
  {
    hide YearStart;
    YearsFollow(YearOf(n));
    SearchMonth(YearOf(n), n - YearStart(YearOf(n)), 1)
  }

  function DayOf(n: int): (d: int)
    ensures 1 <= d <= MonthLength(YearOf(n), MonthOf(n))
  {
    hide YearStart;
    n - DayNumber(YearOf(n), MonthOf(n), 1) + 1
  }

  /** Sunday is 0. */
  function WeekdayOf(n: int): int {
    (n + 1) % 7
  }

  /** The days of the week, counted from a Thursday: 1 January 1970. */
  lemma WeekdaysFollow(n: int)
    ensures WeekdayOf(DayNumber(1970, 1, 1)) == 4
    ensures 0 <= WeekdayOf(n) <= 6
    ensures WeekdayOf(n + 1) == if WeekdayOf(n) == 6 then 0 else WeekdayOf(n) + 1
  {
  }

  /** Days of the same weekday are whole weeks apart, and a Sunday is that of 4 January 1970. */
  lemma WeekdayByWeeks(n: int, m: int)
    ensures WeekdayOf(n) == WeekdayOf(m) <==> (n - m) % 7 == 0
    ensures WeekdayOf(n) == (n - DayNumber(1970, 1, 4)) % 7
  {
    assert DayNumber(1970, 1, 4) == 719165;
  }

  /** Thirty days have September, April, June and November. */
  lemma MonthLengths(year: int, month: int)
    requires 1 <= month <= 12
    ensures MonthLength(year, month) ==
            if month == 2 then (if Leap(year) then 29 else 28)
            else if month == 4 || month == 6 || month == 9 || month == 11 then 30 else 31
    ensures MonthStart(year, 1) == 0 && MonthStart(year, 13) == YearLength(year)
  {
  }

  /** 97 years of 400 are leap years; of the four centuries one is. */
  lemma FourCenturies(year: int)
    ensures YearStart(year + 400) == YearStart(year) + 146097 && (Leap(year + 400) <==> Leap(year))
    ensures Leap(2000) && !Leap(1900) && !Leap(2100) && Leap(2024) && !Leap(2023)
    ensures DayNumber(1, 1, 1) == 0
  {
  }

  predicate IsDate(year: int, month: int, d: int) {
    1 <= month <= 12 && 1 <= d <= MonthLength(year, month)
  }

  lemma MonthsFollow(year: int, month: int)
    requires 1 <= month <= 12
    ensures 28 <= MonthLength(year, month) <= 31
    ensures DayNumber(year, month, 1) + MonthLength(year, month) == DayNumber(year, month + 1, 1)
    ensures YearStart(year) <= DayNumber(year, month, 1) <= DayNumber(year, month + 1, 1) <= YearStart(year + 1)
  {
    hide YearStart;
    YearsFollow(year);
  }

  /** A day lies in the month whose first and last days surround it, and in no other. */
  lemma MonthIsUnique(n: int, year: int, month: int)
    requires 1 <= month <= 12 && DayNumber(year, month, 1) <= n < DayNumber(year, month + 1, 1)
    ensures YearOf(n) == year && MonthOf(n) == month && DayOf(n) == n - DayNumber(year, month, 1) + 1
  {
    hide YearStart;
    MonthsFollow(year, month);
    YearIsUnique(n, year);
  }

  /** Every date has its own day number, and every day number its date. */
  lemma DatesAndDays(n: int, year: int, month: int, d: int)
    ensures IsDate(YearOf(n), MonthOf(n), DayOf(n)) && DayNumber(YearOf(n), MonthOf(n), DayOf(n)) == n
    ensures IsDate(year, month, d) && DayNumber(year, month, d) == n <==>
            year == YearOf(n) && month == MonthOf(n) && d == DayOf(n)
  {
    hide YearStart;
    if IsDate(year, month, d) && DayNumber(year, month, d) == n {
      MonthsFollow(year, month);
      MonthIsUnique(n, year, month);
    }
  }

  // ----------------------------------------------------------- times of day

  function Day(t: int): int { t / MINUTES_PER_DAY }
  function HourOf(t: int): int { t % MINUTES_PER_DAY / 60 }
  function MinuteOf(t: int): int { t % 60 }

  /** time.Date(year, month, d, hour, 0, ...) in minutes. */
  function At(year: int, month: int, d: int, hour: int): int
    requires 1 <= month <= 13
  {
    MINUTES_PER_DAY * DayNumber(year, month, d) + 60 * hour
  }
}
