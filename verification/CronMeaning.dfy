/**
 What expressions mean on dates and clocks, and what the search answers for the usual ones: every day, every week, every
 month, and two restricted day fields (jobs/cron.go).
 */
module CronMeaning {
  import opened Options
  import opened Text
  import opened Calendar
  import opened CronParser
  import opened CronNext
  import opened CronHorizon

  // ---------------------------------------------------------- dates that match

  /** A weekday counted from a Sunday, 4 January 1970. */
  function DaysSinceSunday(year: int, month: int, d: int): int
    requires 1 <= month <= 12
  {
    (DayNumber(year, month, d) - DayNumber(1970, 1, 4)) % 7
  }

  /**
   A minute of a date matches if and only if its month, hour and minute are permitted, and its day: by day of the month
   or weekday, whichever is not a star; by either when neither is; and any day when both are.
   */
  lemma FiresOnDate(s: Schedule, year: int, month: int, d: int, hour: int, minute: int)
    requires IsDate(year, month, d) && 0 <= hour <= 23 && 0 <= minute <= 59
    ensures Fires(s, TimeOn(DayNumber(year, month, d), hour, minute)) <==>
            && month in s.month && hour in s.hour && minute in s.minute
            && ((s.domStarred && s.dowStarred) || (!s.domStarred && d in s.dom)
                || (!s.dowStarred && DaysSinceSunday(year, month, d) in s.dow))
  {
    hide YearStart, YearOf, MonthOf, DayOf, WeekdayOf, DayNumber;
    var n := DayNumber(year, month, d);
    TimesOfADay(n, hour, minute);
    DatesAndDays(n, year, month, d);
    WeekdayByWeeks(n, n);
  }

  // ---------------------------------------------------------- two day fields

  /** Two restricted day fields are alternatives: the search finds the earlier of what it finds for each alone. */
  lemma EitherDayField(s: Schedule, t: int)
    requires !s.domStarred && !s.dowStarred
    ensures var a, b := NextFire(s.(dowStarred := true), t), NextFire(s.(domStarred := true), t);
            NextFire(s, t) == if a <= b then a else b
  {
    hide Naive, Fires, NextFire;
    var a, b := s.(dowStarred := true), s.(domStarred := true);
    NextFireIsFirst(a, t);
    NextFireIsFirst(b, t);
    forall u ensures Fires(s, u) <==> Fires(a, u) || Fires(b, u) { EitherFires(s, u); }
    var first := if NextFire(a, t) <= NextFire(b, t) then NextFire(a, t) else NextFire(b, t);
    assert IsFirst(s, t + 1, t + 1 + WINDOW, first);
    FirstIsNext(s, t, first);
  }

  lemma EitherFires(s: Schedule, u: int)
    requires !s.domStarred && !s.dowStarred
    ensures Fires(s, u) <==> Fires(s.(dowStarred := true), u) || Fires(s.(domStarred := true), u)
  {
    hide DayOf, WeekdayOf, MonthOf, HourOf, MinuteOf, Day;
  }

  lemma FirstIsNext(s: Schedule, t: int, r: int)
    requires IsFirst(s, t + 1, t + 1 + WINDOW, r)
    ensures NextFire(s, t) == r
  {
    hide Fires;
    NaiveIsFirst(s, t + 1, t + 1 + WINDOW, r);
  }

  // ------------------------------------------------------------ one time a day

  /** The only match in an interval of the search is its answer. */
  lemma OnlyMatchIsNext(s: Schedule, t: int, r: int)
    requires t < r <= t + 1 + WINDOW && Fires(s, r) && Quiet(s, t + 1, r)
    ensures NextFire(s, t) == r
  {
    hide Fires;
    FirstIsNext(s, t, r);
  }

  /** Matches at one time of day only. */
  predicate OnceADay(s: Schedule, hour: int, minute: int) {
    s.hour == {hour} && s.minute == {minute} && 0 <= hour <= 23 && 0 <= minute <= 59
  }

  /** Such a schedule fires at that time of the days that match, and at no other time. */
  lemma OnceADayFires(s: Schedule, hour: int, minute: int, t: int)
    requires OnceADay(s, hour, minute)
    ensures Fires(s, t) <==> t == TimeOn(Day(t), hour, minute) && DayFires(s, Day(t))
  {
    hide DayFires;
    TimeIsOnItsDay(t);
    TimesOfADay(Day(t), hour, minute);
  }

  /** The first time of day `hour:minute` after t falls on this day. */
  function FirstDay(t: int, hour: int, minute: int): int {
    if TimeOn(Day(t), hour, minute) > t then Day(t) else Day(t) + 1
  }

  /** The search answers with the first matching day from there on. */
  lemma FirstMatchingDay(s: Schedule, hour: int, minute: int, t: int, n: int)
    requires OnceADay(s, hour, minute) && DayFires(s, n) && FirstDay(t, hour, minute) <= n <= Day(t) + 366
    requires forall k | FirstDay(t, hour, minute) <= k < n :: !DayFires(s, k)
    ensures NextFire(s, t) == TimeOn(n, hour, minute)
  {
    hide DayFires, Fires, Day;
    var r := TimeOn(n, hour, minute);
    TimeIsOnItsDay(t);
    TimesOfADay(n, hour, minute);
    OnceADayFires(s, hour, minute, r);
    forall u | t + 1 <= u < r ensures !Fires(s, u) {
      OnceADayFires(s, hour, minute, u);
      assert u == TimeOn(Day(u), hour, minute) ==> FirstDay(t, hour, minute) <= Day(u) < n;
    }
    OnlyMatchIsNext(s, t, r);
  }

  // ------------------------------------------------------------ the usual forms

  /** A star stands for every value of its field. */
  lemma StarMeansAll(k: nat)
    requires k < 5
    ensures WellWritten([Part(Star, 1)], k) && ShowField([Part(Star, 1)]) == "*"
    ensures Allows(Meaning([Part(Star, 1)], k), None, k)
  {
    hide Denotation, StepsFrom;
    var p, parts := Part(Star, 1), [Part(Star, 1)];
    forall j ensures j in Denotation(p, Lo(k), Hi(k)) <==> Lo(k) <= j <= Hi(k) {
      EveryStepFrom(Lo(k), j);
      DenotationOfForms(p, Lo(k), Hi(k), j);
    }
    assert forall b :: b in Meaning(parts, k) <==> b in Denotation(parts[0], Lo(k), Hi(k));
  }

  lemma EveryStepFrom(lo: int, j: int)
    ensures lo <= j ==> StepsFrom(lo, 1, j)
  {
    if lo <= j {
      var n: nat := j - lo;
      assert j == lo + Times(n, 1);
    }
  }

  /** A field of one value, or a star for none. */
  function Field(v: Option<int>): seq<Part> {
    [if v.Some? then Part(Value(v.value), 1) else Part(Star, 1)]
  }

  function Shown(v: Option<int>): string
    requires v.Some? ==> v.value >= 0
  {
    if v.Some? then Dec(v.value) else "*"
  }

  /** The mask holds the number, or all of the field where there is a star. */
  ghost predicate Allows(mask: Mask, v: Option<int>, k: nat)
    requires k < 5
  {
    forall j :: j in mask <==> if v.Some? then j == v.value else Lo(k) <= j <= Hi(k)
  }

  predicate InField(v: Option<int>, k: nat)
    requires k < 5
  {
    v.Some? ==> Lo(k) <= v.value <= Hi(k)
  }

  lemma FieldMeans(v: Option<int>, k: nat)
    requires k < 5 && InField(v, k)
    ensures WellWritten(Field(v), k) && ShowField(Field(v)) == Shown(v) && Allows(Meaning(Field(v), k), v, k)
    ensures Field(v) == [Part(Star, 1)] <==> v.None?
  {
    hide Meaning, ShowField, WellWritten;
    if v.Some? { OneValue(v.value, k); } else { StarMeansAll(k); }
  }

  /** An expression that has a number or a star in each field. */
  function Expression(minute: Option<int>, hour: Option<int>, dom: Option<int>, month: Option<int>, dow: Option<int>): string
    requires InField(minute, 0) && InField(hour, 1) && InField(dom, 2) && InField(month, 3) && InField(dow, 4)
  {
    Join([Shown(minute), Shown(hour), Shown(dom), Shown(month), Shown(dow)], ' ')
  }

  /** Such an expression is accepted, and permits the numbers written, and everything where there is a star. */
  lemma ExpressionParses(minute: Option<int>, hour: Option<int>, dom: Option<int>, month: Option<int>, dow: Option<int>)
    requires InField(minute, 0) && InField(hour, 1) && InField(dom, 2) && InField(month, 3) && InField(dow, 4)
    ensures ScheduleOf(Expression(minute, hour, dom, month, dow)).Some?
    ensures var s := ScheduleOf(Expression(minute, hour, dom, month, dow)).value;
            && Allows(s.minute, minute, 0) && Allows(s.hour, hour, 1) && Allows(s.dom, dom, 2)
            && Allows(s.month, month, 3) && Allows(s.dow, dow, 4)
            && s.domStarred == dom.None? && s.dowStarred == dow.None?
  {
    hide ScheduleOf, Meaning, ShowField, Shown, Field, Allows, Writable, InBounds, Steady, Join;
    var f := [Field(minute), Field(hour), Field(dom), Field(month), Field(dow)];
    FieldMeans(minute, 0);
    FieldMeans(hour, 1);
    FieldMeans(dom, 2);
    FieldMeans(month, 3);
    FieldMeans(dow, 4);
    ExpressionMeansItsFields(f);
  }

  lemma OnlyValue(mask: Mask, v: int, k: nat)
    requires k < 5 && Allows(mask, Some(v), k)
    ensures mask == {v}
  {
    assert forall j :: j in mask <==> j == v;
  }

  /** The ranges of the fields: a single number is accepted in field k exactly in these. */
  lemma NumberInField(v: Int63, k: nat)
    requires k < 5
    ensures FieldMask(Dec(v), Lo(k), Hi(k)).Some? <==>
            if k == 0 then v <= 59 else if k == 1 then v <= 23 else if k == 2 then 1 <= v <= 31
            else if k == 3 then 1 <= v <= 12 else v <= 6
    ensures FieldMask(Dec(v), Lo(k), Hi(k)).Some? ==> FieldMask(Dec(v), Lo(k), Hi(k)).value == {v as int}
  {
    hide Dec, ReadPart, StepMask, Denotation;
    var p := Part(Value(v), 1);
    ReadPartShown(p);
    assert ShowPart(p) == Dec(v);
    DecShape(v);
    FirstSeparator(Dec(v), ',', "");
    assert Split(Dec(v), ',') == [Dec(v)];
    var parts := [Dec(v)];
    if InBounds(p, Lo(k), Hi(k)) {
      MaskIsDenotation(Dec(v), Lo(k), Hi(k));
      forall j ensures j in Denotation(p, Lo(k), Hi(k)) <==> j == v { DenotationOfForms(p, Lo(k), Hi(k), j); }
      var n: int := v;
      assert Denotation(p, Lo(k), Hi(k)) == {n};
      assert PartMask(parts[0], Lo(k), Hi(k)) == Some({n});
    } else {
      assert PartMask(parts[0], Lo(k), Hi(k)).None?;
    }
  }

  // ---------------------------------------------------------- what they answer

  /** `m h * * *`: the search answers with the one minute of the next 24 hours that has this time of day. */
  lemma DailyNext(minute: int, hour: int, t: int, u: int)
    requires 0 <= minute <= 59 && 0 <= hour <= 23
    ensures var s := ScheduleOf(Expression(Some(minute), Some(hour), None, None, None));
            s.Some? && (u == NextFire(s.value, t) <==> t < u <= t + 1440 && u % 1440 == 60 * hour + minute)
  {
    hide ScheduleOf, Expression, Day, NextFire, MonthOf, DayOf, WeekdayOf;
    ExpressionParses(Some(minute), Some(hour), None, None, None);
    var s := ScheduleOf(Expression(Some(minute), Some(hour), None, None, None)).value;
    var n := FirstDay(t, hour, minute);
    MonthInRange(n);
    assert DayFires(s, n);
    OnlyValue(s.minute, minute, 0);
    OnlyValue(s.hour, hour, 1);
    hide DayFires;
    FirstMatchingDay(s, hour, minute, t, n);
    TimeWithin(t, hour, minute, u);
  }

  lemma MonthInRange(n: int)
    ensures 1 <= MonthOf(n) <= 12
  {
  }

  /** The times of day after t, in the following 24 hours. */
  lemma TimeWithin(t: int, hour: int, minute: int, u: int)
    requires 0 <= minute <= 59 && 0 <= hour <= 23
    ensures u == TimeOn(FirstDay(t, hour, minute), hour, minute) <==> t < u <= t + 1440 && u % 1440 == 60 * hour + minute
  {
    TimeIsOnItsDay(t);
  }

  /**
   `m h * * d`: the search answers with the one minute of the next seven days that has this time of day and falls a
   whole number of weeks after weekday d of the week that began on Sunday, 4 January 1970.
   */
  lemma WeeklyNext(minute: int, hour: int, d: int, t: int, u: int)
    requires 0 <= minute <= 59 && 0 <= hour <= 23 && 0 <= d <= 6
    ensures var s := ScheduleOf(Expression(Some(minute), Some(hour), None, None, Some(d)));
            && s.Some?
            && (u == NextFire(s.value, t) <==>
                t < u <= t + 7 * 1440 && u == TimeOn(Day(u), hour, minute) && (Day(u) - (DayNumber(1970, 1, 4) + d)) % 7 == 0)
  {
    hide ScheduleOf, Expression, Day, NextFire, DayFires, DayNumber, FirstDay, TimeOn, Allows;
    ExpressionParses(Some(minute), Some(hour), None, None, Some(d));
    var s := ScheduleOf(Expression(Some(minute), Some(hour), None, None, Some(d))).value;
    OnlyValue(s.minute, minute, 0);
    OnlyValue(s.hour, hour, 1);
    forall k ensures DayFires(s, k) <==> WeekdayOf(k) == d { WeeklyFires(s, d, k); }
    var n := FirstWeekday(FirstDay(t, hour, minute), d);
    StartsToday(t, hour, minute);
    FirstMatchingDay(s, hour, minute, t, n);
    OneInAWeek(t, hour, minute, d, n, u);
  }

  lemma StartsToday(t: int, hour: int, minute: int)
    ensures Day(t) <= FirstDay(t, hour, minute) <= Day(t) + 1
  {
  }

  lemma WeeklyFires(s: Schedule, d: int, n: int)
    requires s.domStarred && !s.dowStarred && Allows(s.month, None, 3) && Allows(s.dow, Some(d), 4)
    ensures DayFires(s, n) <==> WeekdayOf(n) == d
  {
    hide MonthOf, WeekdayOf, DayOf;
    MonthInRange(n);
  }

  lemma FirstWeekday(first: int, d: int) returns (n: int)
    requires 0 <= d <= 6
    ensures first <= n < first + 7 && WeekdayOf(n) == d && forall i | first <= i < n :: WeekdayOf(i) != d
  {
    hide WeekdayOf;
    var k := WeekdayInWeek(first, d);
    n := first + k;
    forall i | first <= i < n ensures WeekdayOf(i) != d { WeekdayByWeeks(i, n); }
  }

  lemma OneInAWeek(t: int, hour: int, minute: int, d: int, n: int, u: int)
    requires 0 <= minute <= 59 && 0 <= hour <= 23 && 0 <= d <= 6
    requires FirstDay(t, hour, minute) <= n < FirstDay(t, hour, minute) + 7 && WeekdayOf(n) == d
    ensures u == TimeOn(n, hour, minute) <==>
            t < u <= t + 7 * 1440 && u == TimeOn(Day(u), hour, minute) && (Day(u) - (DayNumber(1970, 1, 4) + d)) % 7 == 0
  {
    hide DayNumber, Day, WeekdayOf;
    TimeIsOnItsDay(t);
    TimesOfADay(n, hour, minute);
    WeekdayByWeeks(n, Day(u));
    WeekdayByWeeks(Day(u), n);
  }

  /** `m h D * *`, for a day that every month has: on that day of this month if it is still to come, or else of the next. */
  lemma MonthlyNext(minute: int, hour: int, d: int, t: int)
    requires 0 <= minute <= 59 && 0 <= hour <= 23 && 1 <= d <= 28
    ensures var s := ScheduleOf(Expression(Some(minute), Some(hour), Some(d), None, None));
            var year, month := YearOf(Day(t)), MonthOf(Day(t));
            && s.Some?
            && NextFire(s.value, t) ==
               var soon := TimeOn(DayNumber(year, month, d), hour, minute);
               if soon > t then soon else TimeOn(DayNumber(year, month + 1, d), hour, minute)
  {
    hide ScheduleOf, Expression, Day, NextFire, YearOf, MonthOf, DayOf, WeekdayOf, DayNumber;
    ExpressionParses(Some(minute), Some(hour), Some(d), None, None);
    var s := ScheduleOf(Expression(Some(minute), Some(hour), Some(d), None, None)).value;
    OnlyValue(s.minute, minute, 0);
    OnlyValue(s.hour, hour, 1);
    OnlyValue(s.dom, d, 2);
    forall n ensures DayFires(s, n) <==> DayOf(n) == d { MonthInRange(n); }
    hide DayFires;
    var n := NextOfMonth(t, hour, minute, d);
    FirstMatchingDay(s, hour, minute, t, n);
  }

  /** The d-th of this month or the next, and the days before it. */
  lemma NextOfMonth(t: int, hour: int, minute: int, d: int) returns (n: int)
    requires 0 <= minute <= 59 && 0 <= hour <= 23 && 1 <= d <= 28
    ensures var year, month := YearOf(Day(t)), MonthOf(Day(t));
            n == if TimeOn(DayNumber(year, month, d), hour, minute) > t then DayNumber(year, month, d)
                 else DayNumber(year, month + 1, d)
    ensures FirstDay(t, hour, minute) <= n <= Day(t) + 366 && DayOf(n) == d
    ensures forall k | FirstDay(t, hour, minute) <= k < n :: DayOf(k) != d
  {
    hide YearStart, MonthStart, YearOf, MonthOf, DayOf, Day;
    var year, month := YearOf(Day(t)), MonthOf(Day(t));
    var soon := DayNumber(year, month, d);
    n := if TimeOn(soon, hour, minute) > t then soon else DayNumber(year, month + 1, d);
    TimeIsOnItsDay(t);
    MonthInRange(Day(t));
    TwoMonths(year, month, n);
    forall k | FirstDay(t, hour, minute) <= k < n ensures DayOf(k) != d {
      TwoMonths(year, month, k);
    }
  }

  /** The days of a month and of the first 28 after it. */
  lemma TwoMonths(year: int, month: int, k: int)
    requires 1 <= month <= 12
    ensures DayNumber(year, month, 1) <= k < DayNumber(year, month + 1, 1) ==> DayOf(k) == k - DayNumber(year, month, 1) + 1
    ensures DayNumber(year, month + 1, 1) <= k < DayNumber(year, month + 1, 29) ==>
              DayOf(k) == k - DayNumber(year, month + 1, 1) + 1
    ensures DayNumber(year, month, 1) + 28 <= DayNumber(year, month + 1, 1) <= DayNumber(year, month, 1) + 31
  {
    hide YearStart, YearOf, MonthOf, DayOf;
    MonthsFollow(year, month);
    if DayNumber(year, month, 1) <= k < DayNumber(year, month + 1, 1) { MonthIsUnique(k, year, month); }
    if DayNumber(year, month + 1, 1) <= k < DayNumber(year, month + 1, 29) {
      if month == 12 {
        YearsFollow(year);
        MonthsFollow(year + 1, 1);
        MonthIsUnique(k, year + 1, 1);
      } else {
        MonthsFollow(year, month + 1);
        MonthIsUnique(k, year, month + 1);
      }
    }
  }

  /** `m h D M *`, for a date that every year has: in this year if it is still to come, or else in the next. */
  lemma YearlyNext(minute: int, hour: int, d: int, month: int, t: int)
    requires 0 <= minute <= 59 && 0 <= hour <= 23 && IsDate(1, month, d)
    ensures d <= 31
    ensures var s, year := ScheduleOf(Expression(Some(minute), Some(hour), Some(d), Some(month), None)), YearOf(Day(t));
            && s.Some?
            && NextFire(s.value, t) ==
               var soon := TimeOn(DayNumber(year, month, d), hour, minute);
               if soon > t then soon else TimeOn(DayNumber(year + 1, month, d), hour, minute)
  {
    MonthsFollow(1, month);
    hide ScheduleOf, Expression, Day, NextFire, YearOf, MonthOf, DayOf, WeekdayOf, DayNumber, YearStart, MonthStart;
    ExpressionParses(Some(minute), Some(hour), Some(d), Some(month), None);
    var s := ScheduleOf(Expression(Some(minute), Some(hour), Some(d), Some(month), None)).value;
    OnlyValue(s.minute, minute, 0);
    OnlyValue(s.hour, hour, 1);
    OnlyValue(s.dom, d, 2);
    OnlyValue(s.month, month, 3);
    assert forall n :: DayFires(s, n) <==> MonthOf(n) == month && DayOf(n) == d;
    hide DayFires;
    var n := NextOfYear(t, hour, minute, month, d);
    FirstMatchingDay(s, hour, minute, t, n);
  }

  /** The date in this year or the next, and the days before it. */
  lemma NextOfYear(t: int, hour: int, minute: int, month: int, d: int) returns (n: int)
    requires 0 <= minute <= 59 && 0 <= hour <= 23 && IsDate(1, month, d)
    ensures var year := YearOf(Day(t));
            n == if TimeOn(DayNumber(year, month, d), hour, minute) > t then DayNumber(year, month, d)
                 else DayNumber(year + 1, month, d)
    ensures FirstDay(t, hour, minute) <= n <= Day(t) + 366 && MonthOf(n) == month && DayOf(n) == d
    ensures forall k | FirstDay(t, hour, minute) <= k < n :: !(MonthOf(k) == month && DayOf(k) == d)
  {
    hide YearStart, YearOf, MonthOf, DayOf, Day;
    var year := YearOf(Day(t));
    var soon, later := DayNumber(year, month, d), DayNumber(year + 1, month, d);
    n := if TimeOn(soon, hour, minute) > t then soon else later;
    TimeIsOnItsDay(t);
    CommonDatesRecur(year, month, d);
    CommonDatesRecur(year + 1, month, d);
    YearsFollow(year);
    YearsFollow(year + 1);
    DatesAndDays(soon, year, month, d);
    DatesAndDays(later, year + 1, month, d);
    forall k | FirstDay(t, hour, minute) <= k < n ensures !(MonthOf(k) == month && DayOf(k) == d) {
      DatesAndDays(k, 0, 0, 0);
      NotAfterNextYear(k, year, later, month, d);
    }
  }

  lemma NotAfterNextYear(k: int, year: int, later: int, month: int, d: int)
    requires IsDate(year + 1, month, d) && YearStart(year) <= k < later == DayNumber(year + 1, month, d)
    ensures YearOf(k) == year || YearOf(k) == year + 1
  {
    hide YearStart, YearOf;
    MonthsFollow(year + 1, month);
    if k < YearStart(year + 1) { YearIsUnique(k, year); } else { YearIsUnique(k, year + 1); }
  }

  /** `0 9 * * 1`, asked on Sunday, 7 January 2024: Monday, 8 January, nine o'clock. */
  lemma MondayMorning()
    ensures var s := ScheduleOf("0 9 * * 1");
            s.Some? && NextFire(s.value, TimeOn(DayNumber(2024, 1, 7), 0, 0)) == TimeOn(DayNumber(2024, 1, 8), 9, 0)
  {
    hide ScheduleOf, NextFire, Expression, DayNumber, Day;
    MondayWritten();
    January2024();
    var t, u := TimeOn(DayNumber(2024, 1, 7), 0, 0), TimeOn(DayNumber(2024, 1, 8), 9, 0);
    TimesOfADay(DayNumber(2024, 1, 8), 9, 0);
    WeeklyNext(0, 9, 1, t, u);
  }

  lemma January2024()
    ensures DayNumber(2024, 1, 7) == 738891 && DayNumber(2024, 1, 8) == 738892 && DayNumber(1970, 1, 4) == 719165
  {
  }

  lemma MondayWritten()
    ensures Expression(Some(0), Some(9), None, None, Some(1)) == "0 9 * * 1"
  {
    FiveWords([Dec(0), Dec(9), "*", "*", Dec(1)]);
    assert Dec(0) == "0" && Dec(9) == "9" && Dec(1) == "1";
  }
}
