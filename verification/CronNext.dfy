/**
 When a schedule fires, and the search for its next firing (cronSchedule.Next and dayMatches in jobs/cron.go). Times
 are whole minutes of the calendar, except where nanoseconds are named.
 */
module CronNext {
  import opened Calendar
  import opened CronParser

  /** Five years of 365 days. */
  const WINDOW: int := 5 * 365 * MINUTES_PER_DAY
  const NANOS: int := 60_000_000_000

  // ---------------------------------------------------------- what matches

  /** A starred day field leaves the choice to the other one; two restricted ones are alternatives. */
  predicate DayMatches(s: Schedule, n: int) {
    var domMatch, dowMatch := DayOf(n) in s.dom, WeekdayOf(n) in s.dow;
    if s.domStarred && s.dowStarred then true
    else if s.domStarred then dowMatch
    else if s.dowStarred then domMatch
    else domMatch || dowMatch
  }

  predicate DayFires(s: Schedule, n: int) {
    MonthOf(n) in s.month && DayMatches(s, n)
  }

  /** The schedule fires in this minute. */
  predicate Fires(s: Schedule, t: int) {
    DayFires(s, Day(t)) && HourOf(t) in s.hour && MinuteOf(t) in s.minute
  }

  /** The minute-by-minute search: the first firing from t on, or the deadline. */
  function Naive(s: Schedule, t: int, deadline: int): int
    decreases deadline - t
  {
    if t > deadline then deadline else if Fires(s, t) then t else Naive(s, t + 1, deadline)
  }

  function NextFire(s: Schedule, t: int): int {
    Naive(s, t + 1, t + 1 + WINDOW)
  }

  ghost predicate Quiet(s: Schedule, from: int, to: int) {
    forall u | from <= u < to :: !Fires(s, u)
  }

  /** r is the first firing in [from, deadline]; when there is none, r is the deadline. */
  ghost predicate IsFirst(s: Schedule, from: int, deadline: int, r: int) {
    && from <= r <= deadline
    && Quiet(s, from, r)
    && (Fires(s, r) || r == deadline)
  }

  lemma {:induction false} NaiveIsFirst(s: Schedule, from: int, deadline: int, r: int)
    requires from <= deadline
    ensures r == Naive(s, from, deadline) <==> IsFirst(s, from, deadline, r)
    decreases deadline - from
  {
    hide Fires;
    var n := Naive(s, from, deadline);
    if from < deadline && !Fires(s, from) {
      NaiveIsFirst(s, from + 1, deadline, n);
    } else {
      assert Naive(s, deadline + 1, deadline) == deadline;
    }
    assert IsFirst(s, from, deadline, n);
    if IsFirst(s, from, deadline, r) {
      assert r < n ==> !Fires(s, r) && r != deadline;
      assert n < r ==> !Fires(s, n) && n != deadline;
    }
  }

  // ---------------------------------------------------- jumps skip no firing

  lemma MinutesOfADay(t: int, n: int)
    ensures Day(t) == n <==> MINUTES_PER_DAY * n <= t < MINUTES_PER_DAY * (n + 1)
    ensures Day(t) == n ==> HourOf(t) == (t - MINUTES_PER_DAY * n) / 60 && 0 <= HourOf(t) < 24
  {
  }

  lemma DaysAscend(t: int, u: int)
    requires t <= u
    ensures Day(t) <= Day(u)
  {
  }

  function NextMonth(t: int): int {
    At(YearOf(Day(t)), MonthOf(Day(t)) + 1, 1, 0)
  }

  function NextDay(t: int): int {
    At(YearOf(Day(t)), MonthOf(Day(t)), DayOf(Day(t)) + 1, 0)
  }

  function NextHour(t: int): int {
    At(YearOf(Day(t)), MonthOf(Day(t)), DayOf(Day(t)), HourOf(t) + 1)
  }

  lemma SkipMonth(s: Schedule, t: int)
    requires MonthOf(Day(t)) !in s.month
    ensures t < NextMonth(t) && Quiet(s, t, NextMonth(t))
  {
    hide DayNumber, YearOf, MonthOf, DayMatches;
    var year, month := YearOf(Day(t)), MonthOf(Day(t));
    var n := DayNumber(year, month + 1, 1);
    MinutesOfADay(t, Day(t));
    forall u | t <= u < NextMonth(t) ensures !Fires(s, u) {
      DaysAscend(t, u);
      MinutesOfADay(u, Day(u));
      MonthIsUnique(Day(u), year, month);
    }
  }

  lemma SkipDay(s: Schedule, t: int)
    requires !DayMatches(s, Day(t))
    ensures t < NextDay(t) && Quiet(s, t, NextDay(t))
  {
    hide YearStart, MonthStart, YearOf, MonthOf, DayOf, DayMatches;
    DatesAndDays(Day(t), 0, 0, 0);
    MinutesOfADay(t, Day(t));
    assert NextDay(t) == MINUTES_PER_DAY * (Day(t) + 1);
    forall u | t <= u < NextDay(t) ensures !Fires(s, u) {
      MinutesOfADay(u, Day(t));
    }
  }

  lemma SkipHour(s: Schedule, t: int)
    requires HourOf(t) !in s.hour
    ensures t < NextHour(t) && Quiet(s, t, NextHour(t))
  {
    hide YearStart, MonthStart, YearOf, MonthOf, DayOf, DayMatches;
    DatesAndDays(Day(t), 0, 0, 0);
    MinutesOfADay(t, Day(t));
    assert NextHour(t) == MINUTES_PER_DAY * Day(t) + 60 * (HourOf(t) + 1);
    forall u | t <= u < NextHour(t) ensures !Fires(s, u) {
      MinutesOfADay(u, Day(t));
    }
  }

  // ------------------------------------------------------------- the search

  /** The time, in nanoseconds, of the next firing strictly after t. */
  method Next(s: Schedule, t: int) returns (r: int)
    ensures r == NANOS * NextFire(s, t / NANOS)
    ensures t < r
  {
    hide DayMatches, NextMonth, NextDay, NextHour, YearOf, MonthOf, DayOf, HourOf, Day;
    var start := (t + NANOS) / NANOS;
    assert start == t / NANOS + 1;
    var now, deadline := start, start + WINDOW;
    while now <= deadline
      invariant start <= now && Quiet(s, start, now)
      decreases deadline - now
    {
      if MonthOf(Day(now)) !in s.month {
        SkipMonth(s, now);
        now := NextMonth(now);
        continue;
      }
      if !DayMatches(s, Day(now)) {
        SkipDay(s, now);
        now := NextDay(now);
        continue;
      }
      if HourOf(now) !in s.hour {
        SkipHour(s, now);
        now := NextHour(now);
        continue;
      }
      if MinuteOf(now) !in s.minute {
        now := now + 1;
        continue;
      }
      NaiveIsFirst(s, start, deadline, now);
      return NANOS * now;
    }
    NaiveIsFirst(s, start, deadline, deadline);
    return NANOS * deadline;
  }
}
