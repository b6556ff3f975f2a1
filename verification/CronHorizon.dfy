/**
 How far ahead a schedule's next firing can be. The five-year window of cronSchedule.Next (jobs/cron.go) finds every
 schedule that fires at all, except a 29 February across a century year that is not a leap year.
 */
module CronHorizon {
  import opened Options
  import opened Text
  import opened Calendar
  import opened CronParser
  import opened CronNext

  /** Some permitted month of the year has a permitted day. */
  ghost predicate HasDate(s: Schedule, year: int) {
    exists m, d :: m in s.month && d in s.dom && IsDate(year, m, d)
  }

  /** The schedule fires in every year: it can rely on weekdays, or has a date that is not 29 February. */
  ghost predicate EveryYear(s: Schedule) {
    s.domStarred || !s.dowStarred || HasDate(s, 1)
  }

  /** The schedule fires on 29 February only. */
  ghost predicate LeapOnly(s: Schedule) {
    !EveryYear(s) && 2 in s.month && 29 in s.dom
  }

  ghost predicate FiresWithin(s: Schedule, from: int, to: int) {
    exists t :: from <= t <= to && Fires(s, t)
  }

  lemma NextFireIsFirst(s: Schedule, t: int)
    ensures IsFirst(s, t + 1, t + 1 + WINDOW, NextFire(s, t))
    ensures Fires(s, NextFire(s, t)) <==> FiresWithin(s, t + 1, t + 1 + WINDOW)
  {
    hide Fires, Naive;
    NaiveIsFirst(s, t + 1, t + 1 + WINDOW, NextFire(s, t));
  }

  // --------------------------------------------------------------- every year

  lemma WeekdayInWeek(n: int, b: int) returns (k: int)
    requires 0 <= b <= 6
    ensures 0 <= k < 7 && WeekdayOf(n + k) == b
  {
    k := (b - WeekdayOf(n) + 7) % 7;
  }

  lemma CommonDatesRecur(year: int, m: int, d: int)
    requires IsDate(1, m, d)
    ensures IsDate(year, m, d)
  {
  }

  lemma FiringDayOfYear(s: Schedule, year: int) returns (n: int)
    requires Permits(s) && EveryYear(s)
    ensures YearStart(year) <= n < YearStart(year + 1) && DayFires(s, n)
  {
    hide YearStart, YearOf, MonthOf, DayOf;
    var m, d, b :| (s.dowStarred && !s.domStarred ==> d in s.dom && IsDate(1, m, d))
                   && m in s.month && 1 <= m <= 12 && b in s.dow && 0 <= b <= 6;
    var first := DayNumber(year, m, 1);
    MonthsFollow(year, m);
    if s.dowStarred && !s.domStarred {
      n := DayNumber(year, m, d);
      CommonDatesRecur(year, m, d);
      DatesAndDays(n, year, m, d);
    } else {
      var k := WeekdayInWeek(first, b);
      n := first + k;
      MonthIsUnique(n, year, m);
    }
  }

  function TimeOn(n: int, h: int, m: int): int {
    MINUTES_PER_DAY * n + 60 * h + m
  }

  predicate IsTime(s: Schedule, h: int, m: int) {
    h in s.hour && m in s.minute && 0 <= h <= 23 && 0 <= m <= 59
  }

  lemma TimesOfADay(n: int, h: int, m: int)
    requires 0 <= h <= 23 && 0 <= m <= 59
    ensures Day(TimeOn(n, h, m)) == n && HourOf(TimeOn(n, h, m)) == h && MinuteOf(TimeOn(n, h, m)) == m
  {
    var t := TimeOn(n, h, m);
    QuotientIsUnique(t, MINUTES_PER_DAY, n, 60 * h + m);
    QuotientIsUnique(t, 60, 24 * n + h, m);
    assert HourOf(t) == (60 * h + m) / 60;
  }

  lemma SomeTime(s: Schedule) returns (h: int, m: int)
    requires Permits(s)
    ensures IsTime(s, h, m)
  {
    h, m :| h in s.hour && 0 <= h <= 23 && m in s.minute && 0 <= m <= 59;
  }

  lemma TimeIsOnItsDay(t: int)
    ensures t == TimeOn(Day(t), HourOf(t), MinuteOf(t))
    ensures 0 <= HourOf(t) <= 23 && 0 <= MinuteOf(t) <= 59
  {
    var r := t % MINUTES_PER_DAY;
    Divided(t, MINUTES_PER_DAY);
    Divided(r, 60);
    QuotientIsUnique(t, 60, 24 * Day(t) + r / 60, r % 60);
  }

  lemma Divided(t: int, d: int)
    requires d > 0
    ensures t == d * (t / d) + t % d && 0 <= t % d < d
  {
  }

  /** A firing falls within two years of any start. */
  lemma EveryYearFires(s: Schedule, start: int)
    requires Permits(s) && EveryYear(s)
    ensures FiresWithin(s, start, start + 732 * MINUTES_PER_DAY)
  {
    hide YearStart, YearOf, EveryYear, DayFires;
    var year := YearOf(Day(start));
    var n := FiringDayOfYear(s, year + 1);
    YearsFollow(year);
    YearsFollow(year + 1);
    var h, m := SomeTime(s);
    TimesOfADay(n, h, m);
    TimeIsOnItsDay(start);
    assert Fires(s, TimeOn(n, h, m));
  }

  // ------------------------------------------------------------- 29 February

  lemma LeapOnlyDay(s: Schedule, n: int)
    requires LeapOnly(s)
    ensures DayFires(s, n) <==> Leap(YearOf(n)) && n == DayNumber(YearOf(n), 2, 29)
  {
    hide YearStart, YearOf, MonthOf, DayOf;
    var year, m, d := YearOf(n), MonthOf(n), DayOf(n);
    DatesAndDays(n, year, 2, 29);
    if DayFires(s, n) {
      assert !IsDate(1, m, d);
    }
  }

  lemma LeapDayTime(s: Schedule, year: int, h: int, m: int)
    requires LeapOnly(s) && Leap(year) && IsTime(s, h, m)
    ensures Fires(s, TimeOn(DayNumber(year, 2, 29), h, m))
  {
    hide YearStart, YearOf, LeapOnly, DayFires;
    var n := DayNumber(year, 2, 29);
    YearsFollow(year);
    YearIsUnique(n, year);
    LeapOnlyDay(s, n);
    TimesOfADay(n, h, m);
  }

  /** The century year c without a leap day lies in the search window, and the leap days around it do not. */
  ghost predicate Gap(s: Schedule, start: int, c: int) {
    && c % 100 == 0 && c % 400 != 0
    && forall h, m | IsTime(s, h, m) ::
         TimeOn(DayNumber(c - 4, 2, 29), h, m) < start && start + WINDOW < TimeOn(DayNumber(c + 4, 2, 29), h, m)
  }

  ghost predicate CenturyGap(s: Schedule, start: int) {
    exists c :: Gap(s, start, c)
  }

  lemma LeapDayStart(year: int)
    ensures DayNumber(year, 2, 29) == YearStart(year) + 59
  {
  }

  lemma NoLeapYearNear(c: int, year: int)
    requires c % 100 == 0 && c % 400 != 0 && Leap(year)
    ensures year <= c - 4 || c + 4 <= year
  {
    var a, b := 25 * (c / 100), year / 4;
    assert c == 4 * a && year == 4 * b;
    assert year != c;
  }

  lemma GapHasNoFiring(s: Schedule, start: int, c: int, t: int)
    requires LeapOnly(s) && Gap(s, start, c) && Fires(s, t)
    ensures t < start || start + WINDOW < t
  {
    hide YearStart, YearOf, LeapOnly, DayFires, Leap, Day, HourOf, MinuteOf;
    var n, h, m := Day(t), HourOf(t), MinuteOf(t);
    LeapOnlyDay(s, n);
    TimeIsOnItsDay(t);
    var year := YearOf(n);
    NoLeapYearNear(c, year);
    LeapDayStart(year);
    LeapDayStart(c - 4);
    LeapDayStart(c + 4);
    if year <= c - 4 {
      LaterYearsStartLater(year, c - 4);
    } else {
      LaterYearsStartLater(c + 4, year);
    }
    assert IsTime(s, h, m);
  }

  /** The leap year, or century year without a leap day, that comes next. */
  function NextFourth(year: int): (k: int)
    ensures year < k <= year + 4 && k % 4 == 0
  {
    4 * (year / 4 + 1)
  }

  lemma LeapDayBounds(start: int, k: int, h: int, m: int)
    requires 0 <= h <= 23 && 0 <= m <= 59
    ensures var year, t := YearOf(Day(start)), TimeOn(DayNumber(k, 2, 29), h, m);
            && (k > year ==> start <= t)
            && (k <= year + 4 ==> t <= start + WINDOW)
  {
    hide YearStart, YearOf;
    var year := YearOf(Day(start));
    TimeIsOnItsDay(start);
    if k > year { LaterYearsStartLater(year + 1, k); }
    if k <= year { LaterYearsStartLater(k, year); } else { LaterYearsStartLater(year, k); }
  }

  lemma CenturyNeighbours(c: int)
    requires c % 4 == 0 && !Leap(c)
    ensures c % 100 == 0 && c % 400 != 0 && Leap(c - 4) && Leap(c + 4)
  {
    var q := c / 100;
    QuotientIsUnique(c - 4, 100, q - 1, 96);
    QuotientIsUnique(c + 4, 100, q, 4);
  }

  lemma MissNeedsGap(s: Schedule, start: int) returns (c: int)
    requires Permits(s) && LeapOnly(s) && !FiresWithin(s, start, start + WINDOW)
    ensures Gap(s, start, c)
  {
    hide YearStart, YearOf, LeapOnly, DayFires, Fires, Leap, NextFourth, DayNumber, Day;
    var year := YearOf(Day(start));
    c := NextFourth(year);
    var h0, m0 := SomeTime(s);
    if Leap(c) {
      LeapDayTime(s, c, h0, m0);
      LeapDayBounds(start, c, h0, m0);
      assert false;
    }
    CenturyNeighbours(c);
    forall h, m | IsTime(s, h, m)
      ensures TimeOn(DayNumber(c - 4, 2, 29), h, m) < start && start + WINDOW < TimeOn(DayNumber(c + 4, 2, 29), h, m)
    {
      LeapDayTime(s, c - 4, h, m);
      LeapDayTime(s, c + 4, h, m);
      LeapDayBounds(start, c - 4, h, m);
      LeapDayBounds(start, c + 4, h, m);
    }
  }

  // ------------------------------------------------------------- the horizon

  /** A schedule fires at some time exactly when it fires every year or on leap days. */
  lemma Satisfiable(s: Schedule)
    requires Permits(s)
    ensures (exists t :: Fires(s, t)) <==> EveryYear(s) || LeapOnly(s)
  {
    hide YearStart, YearOf, MonthOf, DayOf;
    if EveryYear(s) {
      EveryYearFires(s, 0);
    } else if LeapOnly(s) {
      var h, m := SomeTime(s);
      LeapDayTime(s, 4, h, m);
    } else {
      forall t ensures !Fires(s, t) {
        NeverFires(s, Day(t));
      }
    }
  }

  lemma NeverFires(s: Schedule, n: int)
    requires !EveryYear(s) && !LeapOnly(s)
    ensures !DayFires(s, n)
  {
    hide YearStart, YearOf, MonthOf, DayOf;
    DatesAndDays(n, 0, 0, 0);
    var m, d := MonthOf(n), DayOf(n);
    assert DayFires(s, n) ==> m in s.month && d in s.dom && !IsDate(1, m, d);
  }

  /** The search finds nothing, although the schedule fires some day, exactly for leap days across such a century. */
  lemma Horizon(s: Schedule, t: int)
    requires Permits(s)
    ensures (exists u :: Fires(s, u)) && !Fires(s, NextFire(s, t)) <==>
            LeapOnly(s) && CenturyGap(s, t + 1)
  {
    hide Fires, EveryYear, LeapOnly, Gap, NextFire;
    NextFireIsFirst(s, t);
    Satisfiable(s);
    if EveryYear(s) {
      LeapOnlyIsNotEveryYear(s);
      EveryYearFires(s, t + 1);
    } else if LeapOnly(s) {
      if FiresWithin(s, t + 1, t + 1 + WINDOW) {
        if CenturyGap(s, t + 1) {
          var c :| Gap(s, t + 1, c);
          GapHasNoFiring(s, t + 1, c, NextFire(s, t));
        }
      } else {
        var c := MissNeedsGap(s, t + 1);
      }
    }
  }

  lemma LeapOnlyIsNotEveryYear(s: Schedule)
    ensures LeapOnly(s) ==> !EveryYear(s)
  {
  }

  /** On 1 March 2096, a 29 February schedule is not found: the search gives a deadline at which it does not fire. */
  lemma LeapDayIsMissed(s: Schedule)
    requires Permits(s) && LeapOnly(s)
    ensures var t := At(2096, 3, 1, 0) - 1; NextFire(s, t) == t + 1 + WINDOW == At(2101, 3, 1, 0) && !Fires(s, NextFire(s, t))
  {
    hide Fires, EveryYear, LeapOnly, NextFire;
    var t := At(2096, 3, 1, 0) - 1;
    assert Gap(s, t + 1, 2100);
    Horizon(s, t);
    NextFireIsFirst(s, t);
  }

  // ---------------------------------------------------------------- expressions

  /** The fields of an expression that names one minute, hour, day of the month and month, and any day of the week. */
  function OneDate(minute: int, hour: int, dom: int, month: int): seq<seq<Part>> {
    [[Part(Value(minute), 1)], [Part(Value(hour), 1)], [Part(Value(dom), 1)], [Part(Value(month), 1)], [Part(Star, 1)]]
  }

  function AnyDow(): Mask {
    {0, 1, 2, 3, 4, 5, 6}
  }

  lemma OneValue(v: int, k: nat)
    requires k < 5 && Lo(k) <= v <= Hi(k)
    ensures WellWritten([Part(Value(v), 1)], k) && Meaning([Part(Value(v), 1)], k) == {v}
    ensures ShowField([Part(Value(v), 1)]) == Dec(v)
  {
    var p := Part(Value(v), 1);
    hide Denotation;
    forall j ensures j in Denotation(p, Lo(k), Hi(k)) <==> j == v { DenotationOfForms(p, Lo(k), Hi(k), j); }
    var parts := [p];
    assert forall b :: b in Meaning(parts, k) <==> b in Denotation(parts[0], Lo(k), Hi(k));
  }

  lemma AnyWeekday()
    ensures WellWritten([Part(Star, 1)], 4) && Meaning([Part(Star, 1)], 4) == AnyDow()
    ensures ShowField([Part(Star, 1)]) == "*"
  {
    var p := Part(Star, 1);
    hide Denotation, StepsFrom;
    forall j ensures j in Denotation(p, 0, 6) <==> j in AnyDow() {
      EveryStep(j);
      DenotationOfForms(p, 0, 6, j);
    }
    var parts := [p];
    assert forall b :: b in Meaning(parts, 4) <==> b in Denotation(parts[0], Lo(4), Hi(4));
  }

  lemma EveryStep(j: int)
    ensures 0 <= j ==> StepsFrom(0, 1, j)
  {
    if 0 <= j {
      var n: nat := j;
      assert j == 0 + Times(n, 1);
    }
  }

  /** The text of such an expression parses to the schedule it means. */
  lemma OneDateParses(minute: int, hour: int, dom: int, month: int)
    requires 0 <= minute <= 59 && 0 <= hour <= 23 && 1 <= dom <= 31 && 1 <= month <= 12
    ensures ScheduleOf(Dec(minute) + " " + Dec(hour) + " " + Dec(dom) + " " + Dec(month) + " *") ==
            Some(Schedule({minute}, {hour}, {dom}, {month}, AnyDow(), false, true))
  {
    hide ScheduleOf, Meaning, ShowField, Dec, WellWritten;
    var f := OneDate(minute, hour, dom, month);
    OneValue(minute, 0);
    OneValue(hour, 1);
    OneValue(dom, 2);
    OneValue(month, 3);
    AnyWeekday();
    ExpressionMeansItsFields(f);
    var words := [Dec(minute), Dec(hour), Dec(dom), Dec(month), "*"];
    FiveWords(words);
    assert Join(words, ' ') == Dec(minute) + " " + Dec(hour) + " " + Dec(dom) + " " + Dec(month) + " *";
  }

  lemma FiveWords(w: seq<string>)
    requires |w| == 5
    ensures Join(w, ' ') == w[0] + " " + (w[1] + " " + (w[2] + " " + (w[3] + " " + w[4])))
  {
    assert Join(w[4..], ' ') == w[4];
    assert w[3..][1..] == w[4..] && Join(w[3..], ' ') == w[3] + " " + w[4];
    assert w[2..][1..] == w[3..] && w[1..][1..] == w[2..];
    assert Join(w[2..], ' ') == w[2] + " " + Join(w[3..], ' ');
    assert Join(w[1..], ' ') == w[1] + " " + Join(w[2..], ' ');
  }

  lemma OnlyTwentyNinth(s: Schedule)
    requires s.dom == {29} && s.month == {2} && !s.domStarred && s.dowStarred
    ensures LeapOnly(s)
  {
  }

  lemma NoThirtyFirst(s: Schedule)
    requires s.dom == {31} && s.month == {2} && !s.domStarred && s.dowStarred
    ensures !EveryYear(s) && !LeapOnly(s)
  {
  }

  lemma Digits()
    ensures Dec(0) == "0" && Dec(2) == "2" && Dec(29) == "29" && Dec(31) == "31"
  {
    assert Dec(3) == "3";
  }

  /** `0 0 29 2 *` is an expression that fires on 29 February only, and is missed from 1 March 2096. */
  lemma LeapDayExpression()
    ensures ScheduleOf("0 0 29 2 *").Some? && LeapOnly(ScheduleOf("0 0 29 2 *").value)
    ensures var s, t := ScheduleOf("0 0 29 2 *").value, At(2096, 3, 1, 0) - 1;
            NextFire(s, t) == t + 1 + WINDOW && !Fires(s, NextFire(s, t))
  {
    hide ScheduleOf, Dec, LeapOnly, NextFire, Fires;
    OneDateParses(0, 0, 29, 2);
    Digits();
    assert "0" + " " + "0" + " " + "29" + " " + "2" + " *" == "0 0 29 2 *";
    OnlyTwentyNinth(ScheduleOf("0 0 29 2 *").value);
    ParsedSchedulesPermit("0 0 29 2 *");
    LeapDayIsMissed(ScheduleOf("0 0 29 2 *").value);
  }

  /** `0 0 31 2 *` is an expression that never fires. */
  lemma ImpossibleExpression()
    ensures ScheduleOf("0 0 31 2 *").Some? && forall t :: !Fires(ScheduleOf("0 0 31 2 *").value, t)
  {
    hide ScheduleOf, Dec, LeapOnly, EveryYear, DayFires;
    OneDateParses(0, 0, 31, 2);
    Digits();
    assert "0" + " " + "0" + " " + "31" + " " + "2" + " *" == "0 0 31 2 *";
    var s := ScheduleOf("0 0 31 2 *").value;
    NoThirtyFirst(s);
    forall t ensures !Fires(s, t) { NeverFires(s, Day(t)); }
  }
}
