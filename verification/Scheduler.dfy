/**
 Recurring jobs: registration (Schedule and Unschedule in jobs/enqueue.go) and the tick that fires due schedules and
 advances them (schedulerOnce in jobs/scheduler.go). Stored times are Unix milliseconds, in UTC.
 */
module Scheduler {
  import opened Options
  import opened Calendar
  import opened CronParser
  import opened CronNext
  import opened CronHorizon

  const MINUTE: int := 60_000
  const EPOCH: int := 719162 * MINUTES_PER_DAY * MINUTE

  /** A row of the schedule table. */
  datatype Row = Row(jobType: string, cron: string, payload: string, nextRunAt: int, lastRunAt: Option<int>, enabled: bool)

  /**
   A job inserted for a schedule; run_at and enqueued_at are both the time it was due. The table does not store
   `origin`: it tells here which schedule the job is for.
   */
  datatype Job = Job(origin: string, jobType: string, payload: string, runAt: int)

  // ------------------------------------------------------------------ times

  /** The minute of a Unix time, counted from year 1. */
  function MinuteAt(ms: int): int {
    (ms + EPOCH) / MINUTE
  }

  function MsOf(minute: int): int {
    MINUTE * minute - EPOCH
  }

  function NextMs(s: Schedule, ms: int): int {
    MsOf(NextFire(s, MinuteAt(ms)))
  }

  /** The schedule fires at this instant: a whole minute that matches. */
  predicate FiresAt(s: Schedule, ms: int) {
    ms == MsOf(MinuteAt(ms)) && Fires(s, MinuteAt(ms))
  }

  lemma MinutesAndMs(minute: int, ms: int)
    ensures MinuteAt(MsOf(minute)) == minute
    ensures MsOf(MinuteAt(ms)) <= ms < MsOf(MinuteAt(ms) + 1)
  {
  }

  /** Time 0 is midnight of 1 January 1970. */
  lemma UnixTimes()
    ensures MsOf(TimeOn(DayNumber(1970, 1, 1), 0, 0)) == 0
    ensures MsOf(TimeOn(DayNumber(2024, 1, 8), 9, 0)) == 1_704_704_400_000
  {
    assert DayNumber(1970, 1, 1) == 719162 && DayNumber(2024, 1, 8) == 738892;
  }

  /** The search that Schedule and the tick make, from milliseconds and back. */
  method NextMilli(s: Schedule, ms: int) returns (next: int)
    ensures next == NextMs(s, ms) && ms < next
  {
    hide NextFire;
    var nanos := 1_000_000 * (ms + EPOCH);
    QuotientIsUnique(nanos, NANOS, MinuteAt(ms), 1_000_000 * ((ms + EPOCH) % MINUTE));
    assert nanos / NANOS == MinuteAt(ms);
    var r := Next(s, nanos);
    next := r / 1_000_000 - EPOCH;
    assert next == NextMs(s, ms);
  }

  // --------------------------------------------------- one row, tick by tick

  /** A tick as one row meets it: the clock, and whether its two statements succeed. */
  datatype Tick = Tick(now: int, inserted: bool, advanced: bool)

  predicate Due(row: Row, now: int) {
    row.enabled && row.nextRunAt <= now
  }

  /** The tick inserts a job for the row. */
  predicate TickFires(row: Row, tick: Tick) {
    Due(row, tick.now) && ScheduleOf(row.cron).Some? && tick.inserted
  }

  function Advanced(row: Row): Row
    requires ScheduleOf(row.cron).Some?
  {
    row.(nextRunAt := NextMs(ScheduleOf(row.cron).value, row.nextRunAt), lastRunAt := Some(row.nextRunAt))
  }

  function TickRow(row: Row, tick: Tick): Row {
    if TickFires(row, tick) && tick.advanced then Advanced(row) else row
  }

  /** What the tick makes of a row that it read as `seen`. */
  function Overwritten(row: Row, seen: Row, tick: Tick): Row {
    if TickFires(seen, tick) && tick.advanced
    then row.(nextRunAt := Advanced(seen).nextRunAt, lastRunAt := Some(seen.nextRunAt))
    else row
  }

  /** A row that was not registered again meanwhile advances from its own time. */
  lemma UnchangedRowTicks(row: Row, tick: Tick)
    ensures Overwritten(row, row, tick) == TickRow(row, tick)
  {
  }

  /**
   A row registered again between the query and the UPDATE of a tick keeps its new expression and loses its new time: it
   fires next when the old expression would have, whether or not the new one matches then.
   */
  lemma RegistrationDuringTickIsOverwritten(row: Row, seen: Row, tick: Tick, later: Tick, old0: Schedule)
    requires TickFires(seen, tick) && tick.advanced && ScheduleOf(seen.cron) == Some(old0)
    requires row.enabled && ScheduleOf(row.cron).Some? && later.inserted && later.now >= NextMs(old0, seen.nextRunAt)
    ensures var n := Overwritten(row, seen, tick);
            n.cron == row.cron && Firings(n, [later]) == [Firing(NextMs(old0, seen.nextRunAt), later)]
  {
    hide NextMs, ScheduleOf;
    var n := Overwritten(row, seen, tick);
    assert [later][..0] == [];
    assert AfterTicks(n, []) == n && Firings(n, []) == [];
  }

  function JobFor(id: string, row: Row): Job {
    Job(id, row.jobType, row.payload, row.nextRunAt)
  }

  datatype Firing = Firing(runAt: int, tick: Tick)

  function AfterTicks(row: Row, ticks: seq<Tick>): Row {
    if ticks == [] then row
    else TickRow(AfterTicks(row, ticks[..|ticks| - 1]), ticks[|ticks| - 1])
  }

  /** The jobs a row has had inserted over a run of ticks. */
  function Firings(row: Row, ticks: seq<Tick>): seq<Firing> {
    if ticks == [] then []
    else
      var before, last := AfterTicks(row, ticks[..|ticks| - 1]), ticks[|ticks| - 1];
      Firings(row, ticks[..|ticks| - 1]) + if TickFires(before, last) then [Firing(before.nextRunAt, last)] else []
  }

  /** Where the row stands after a firing: advanced, or, when the UPDATE failed, not. */
  function Following(s: Schedule, f: Firing): int {
    if f.tick.advanced then NextMs(s, f.runAt) else f.runAt
  }

  lemma {:induction false} RowKeepsItsIdentity(row: Row, ticks: seq<Tick>)
    ensures AfterTicks(row, ticks) == row.(nextRunAt := AfterTicks(row, ticks).nextRunAt,
                                           lastRunAt := AfterTicks(row, ticks).lastRunAt)
  {
    hide NextMs;
    if ticks != [] { RowKeepsItsIdentity(row, ticks[..|ticks| - 1]); }
  }

  /** A disabled schedule has nothing inserted. */
  lemma {:induction false} DisabledRowsRest(row: Row, ticks: seq<Tick>)
    requires !row.enabled
    ensures Firings(row, ticks) == [] && AfterTicks(row, ticks) == row
  {
    hide NextMs, ScheduleOf;
    if ticks != [] { DisabledRowsRest(row, ticks[..|ticks| - 1]); }
  }

  /** The run time of the last firing that was recorded. */
  function LastRecorded(fs: seq<Firing>): Option<int> {
    if fs == [] then None
    else if fs[|fs| - 1].tick.advanced then Some(fs[|fs| - 1].runAt)
    else LastRecorded(fs[..|fs| - 1])
  }

  /** last_run_at is when the schedule last fired, as far as that was recorded. */
  lemma {:induction false} LastRunIsRecorded(row: Row, ticks: seq<Tick>)
    ensures AfterTicks(row, ticks).lastRunAt ==
            if LastRecorded(Firings(row, ticks)).Some? then LastRecorded(Firings(row, ticks)) else row.lastRunAt
  {
    hide NextMs, ScheduleOf;
    if ticks != [] {
      var n := |ticks| - 1;
      LastRunIsRecorded(row, ticks[..n]);
      var before, fs := Firings(row, ticks[..n]), Firings(row, ticks);
      assert fs != before ==> fs[..|fs| - 1] == before;
    }
  }

  ghost predicate Chained(s: Schedule, first: int, fs: seq<Firing>, next: int) {
    && (fs == [] ==> next == first)
    && (fs != [] ==> fs[0].runAt == first && next == Following(s, fs[|fs| - 1]))
    && forall k | 0 < k < |fs| :: fs[k].runAt == Following(s, fs[k - 1])
  }

  /**
   Whatever fails and however the clock moves, the jobs of a schedule form one chain from its registered time: each is
   due by its tick's clock, and each follows the one before.
   */
  lemma {:induction false} FiringsFormAChain(row: Row, ticks: seq<Tick>, s: Schedule)
    requires ScheduleOf(row.cron) == Some(s)
    ensures Chained(s, row.nextRunAt, Firings(row, ticks), AfterTicks(row, ticks).nextRunAt)
    ensures forall f | f in Firings(row, ticks) :: f.runAt <= f.tick.now
  {
    hide NextMs, ScheduleOf;
    if ticks != [] {
      FiringsFormAChain(row, ticks[..|ticks| - 1], s);
      RowKeepsItsIdentity(row, ticks[..|ticks| - 1]);
    }
  }

  // ------------------------------------------------------ exactly once, in order

  /** The search from this time finds a firing within its window. */
  predicate Found(s: Schedule, ms: int) {
    Fires(s, NextFire(s, MinuteAt(ms)))
  }

  /** For a parsed schedule that fires at all, the search fails only on 29 February across a century without one. */
  lemma FoundUnlessGap(cron: string, s: Schedule, ms: int)
    requires ScheduleOf(cron) == Some(s) && exists u :: Fires(s, u)
    ensures Found(s, ms) <==> !(LeapOnly(s) && CenturyGap(s, MinuteAt(ms) + 1))
  {
    hide Fires, NextFire, LeapOnly, CenturyGap, ScheduleOf;
    ParsedSchedulesPermit(cron);
    Horizon(s, MinuteAt(ms));
  }

  lemma EveryYearIsFound(s: Schedule, ms: int)
    requires Permits(s) && EveryYear(s)
    ensures Found(s, ms)
  {
    hide Fires, NextFire, EveryYear, Permits;
    var m := MinuteAt(ms);
    NextFireIsFirst(s, m);
    EveryYearFires(s, m + 1);
    assert FiresWithin(s, m + 1, m + 1 + WINDOW);
  }

  lemma NextMsIsTheNextMatch(s: Schedule, ms: int, t: int)
    ensures ms < NextMs(s, ms)
    ensures Found(s, ms) ==> FiresAt(s, NextMs(s, ms))
    ensures ms < t < NextMs(s, ms) ==> !FiresAt(s, t)
  {
    hide Fires, NextFire;
    var m := MinuteAt(ms);
    NextFireIsFirst(s, m);
    MinutesAndMs(NextFire(s, m), ms);
    MinutesAndMs(m, t);
    assert ms < t < NextMs(s, ms) && FiresAt(s, t) ==> m < MinuteAt(t) < NextFire(s, m);
  }

  ghost predicate Ascending(fs: seq<Firing>) {
    forall j, k | 0 <= j < k < |fs| :: fs[j].runAt < fs[k].runAt
  }

  predicate AllAdvance(fs: seq<Firing>) {
    forall f | f in fs :: f.tick.advanced
  }

  ghost predicate AllFound(s: Schedule, fs: seq<Firing>) {
    forall f | f in fs :: Found(s, f.runAt)
  }

  lemma {:induction false} ChainCoversMatches(s: Schedule, first: int, fs: seq<Firing>, next: int, t: int)
    requires FiresAt(s, first) && Chained(s, first, fs, next) && AllAdvance(fs) && AllFound(s, fs)
    ensures first <= next && Ascending(fs) && (forall f | f in fs :: first <= f.runAt < next)
    ensures FiresAt(s, t) && first <= t < next <==> exists f :: f in fs && f.runAt == t
    ensures FiresAt(s, next)
  {
    hide FiresAt, NextMs, Found;
    if fs != [] {
      var n := |fs| - 1;
      var last := fs[n];
      assert last in fs;
      ChainCoversMatches(s, first, fs[..n], last.runAt, t);
      NextMsIsTheNextMatch(s, last.runAt, t);
      assert fs == fs[..n] + [last];
    }
  }

  /**
   A schedule registered at one of its matches gets one job for each match before its next_run_at: none skipped, none
   repeated, in order, as long as its UPDATEs succeed and each search finds a match. Failed inserts only delay it.
   */
  lemma EveryMatchFiresOnce(row: Row, ticks: seq<Tick>, s: Schedule, t: int)
    requires ScheduleOf(row.cron) == Some(s) && FiresAt(s, row.nextRunAt)
    requires AllAdvance(Firings(row, ticks)) && AllFound(s, Firings(row, ticks))
    ensures Ascending(Firings(row, ticks))
    ensures FiresAt(s, t) && row.nextRunAt <= t < AfterTicks(row, ticks).nextRunAt <==>
            exists f :: f in Firings(row, ticks) && f.runAt == t
  {
    hide FiresAt, Firings, AfterTicks, Chained, AllAdvance, AllFound, ScheduleOf;
    FiringsFormAChain(row, ticks, s);
    ChainCoversMatches(s, row.nextRunAt, Firings(row, ticks), AfterTicks(row, ticks).nextRunAt, t);
  }

  /** A job is repeated exactly when the UPDATE after an INSERT fails and the schedule fires again. */
  lemma RepeatsComeFromFailedUpdates(row: Row, ticks: seq<Tick>, s: Schedule)
    requires ScheduleOf(row.cron) == Some(s)
    ensures var fs := Firings(row, ticks); Ascending(fs) <==> fs == [] || AllAdvance(fs[..|fs| - 1])
  {
    hide Firings, AfterTicks, ScheduleOf, NextMs;
    FiringsFormAChain(row, ticks, s);
    var fs, next := Firings(row, ticks), AfterTicks(row, ticks).nextRunAt;
    if fs != [] {
      if AllAdvance(fs[..|fs| - 1]) {
        forall j, k | 0 <= j < k < |fs| ensures fs[j].runAt < fs[k].runAt {
          AdvancingChainAscends(s, row.nextRunAt, fs, next, j, k);
        }
      } else {
        var f :| f in fs[..|fs| - 1] && !f.tick.advanced;
        var k :| 0 <= k < |fs| - 1 && fs[k] == f;
        assert fs[k + 1].runAt == Following(s, fs[k]);
      }
    }
  }

  lemma {:induction false} AdvancingChainAscends(s: Schedule, first: int, fs: seq<Firing>, next: int, j: nat, k: nat)
    requires Chained(s, first, fs, next) && j < k < |fs| && AllAdvance(fs[..|fs| - 1])
    ensures fs[j].runAt < fs[k].runAt
  {
    hide NextMs;
    NextMsIsTheNextMatch(s, fs[k - 1].runAt, 0);
    assert fs[k - 1] in fs[..|fs| - 1];
    if j < k - 1 { AdvancingChainAscends(s, first, fs, next, j, k - 1); }
  }

  /** The n-th time after `first` that the search finds, one from the other. */
  function NthNext(s: Schedule, first: int, n: nat): int {
    if n == 0 then first else NextMs(s, NthNext(s, first, n - 1))
  }

  /** A paused scheduler catches up: n successful ticks late enough fire the next n times, one a tick, none left out. */
  lemma {:induction false} PausedScheduleCatchesUp(row: Row, ticks: seq<Tick>, s: Schedule)
    requires ScheduleOf(row.cron) == Some(s) && row.enabled
    requires forall k: nat | k < |ticks| :: ticks[k].inserted && ticks[k].advanced && NthNext(s, row.nextRunAt, k) <= ticks[k].now
    ensures |Firings(row, ticks)| == |ticks| && AfterTicks(row, ticks).nextRunAt == NthNext(s, row.nextRunAt, |ticks|)
    ensures forall k: nat | k < |ticks| :: Firings(row, ticks)[k] == Firing(NthNext(s, row.nextRunAt, k), ticks[k])
  {
    hide NextMs, ScheduleOf;
    if ticks != [] {
      var n := |ticks| - 1;
      assert forall k: nat | k < n :: ticks[..n][k] == ticks[k];
      PausedScheduleCatchesUp(row, ticks[..n], s);
      RowKeepsItsIdentity(row, ticks[..n]);
    }
  }

  /** A schedule that can never match fires all the same, at the search's deadline. */
  lemma ImpossibleSchedulesFire(row: Row, tick: Tick, s: Schedule)
    requires ScheduleOf(row.cron) == Some(s) && forall t :: !Fires(s, t)
    requires TickFires(row, tick) && tick.advanced
    ensures TickRow(row, tick).nextRunAt == MsOf(MinuteAt(row.nextRunAt) + 1 + WINDOW)
    ensures forall later: Tick | later.inserted && later.now >= MsOf(MinuteAt(row.nextRunAt) + 1 + WINDOW) ::
              Firings(row, [tick, later]) == [Firing(row.nextRunAt, tick), Firing(TickRow(row, tick).nextRunAt, later)]
  {
    hide Fires, NextFire, ScheduleOf;
    NextFireIsFirst(s, MinuteAt(row.nextRunAt));
    forall later: Tick | later.inserted && later.now >= MsOf(MinuteAt(row.nextRunAt) + 1 + WINDOW)
      ensures Firings(row, [tick, later]) == [Firing(row.nextRunAt, tick), Firing(TickRow(row, tick).nextRunAt, later)]
    {
      var two := [tick, later];
      assert two[..1] == [tick] && [tick][..0] == [];
      assert AfterTicks(row, []) == row && Firings(row, []) == [];
      assert AfterTicks(row, [tick]) == TickRow(row, tick);
      assert Firings(row, [tick]) == [Firing(row.nextRunAt, tick)];
    }
  }

  /** There is such an expression. */
  lemma ImpossibleExpressionFires(row: Row, tick: Tick)
    requires row.cron == "0 0 31 2 *" && Due(row, tick.now) && tick.inserted && tick.advanced
    ensures TickRow(row, tick).nextRunAt == MsOf(MinuteAt(row.nextRunAt) + 1 + WINDOW)
    ensures ScheduleOf(row.cron).Some? && !FiresAt(ScheduleOf(row.cron).value, TickRow(row, tick).nextRunAt)
  {
    hide Fires, ScheduleOf;
    ImpossibleExpression();
    ImpossibleSchedulesFire(row, tick, ScheduleOf(row.cron).value);
  }

  // --------------------------------------------------------------- the tables

  /** The schedule table, and the jobs that ticks have inserted. */
  class Table {
    var rows: map<string, Row>
    var jobs: seq<Job>

    constructor ()
      ensures rows == map[] && jobs == []
    {
      rows, jobs := map[], [];
    }

    /** Schedule: registers a recurring job, or replaces its expression and payload and recomputes its next run. */
    method Register(id: string, jobType: string, cron: string, payload: string, now: int) returns (ok: bool)
      modifies this
      ensures jobs == old(jobs) && (ok <==> ScheduleOf(cron).Some?)
      ensures !ok ==> rows == old(rows)
      ensures ok ==>
                var last := if id in old(rows) then old(rows)[id].lastRunAt else None;
                rows == old(rows)[id := Row(jobType, cron, payload, NextMs(ScheduleOf(cron).value, now), last, true)]
      ensures ok && EveryYear(ScheduleOf(cron).value) ==> FiresAt(ScheduleOf(cron).value, rows[id].nextRunAt)
    {
      hide EveryYear, FiresAt, NextMs, ScheduleOf, Found;
      var parsed := ParseCron(cron);
      ok := parsed.Success?;
      if ok {
        var s := parsed.value;
        var next := NextMilli(s, now);
        var last := if id in rows then rows[id].lastRunAt else None;
        rows := rows[id := Row(jobType, cron, payload, next, last, true)];
        ParsedSchedulesPermit(cron);
        NextMsIsTheNextMatch(s, now, 0);
        if EveryYear(s) { EveryYearIsFound(s, now); }
      }
    }

    /** Unschedule keeps the row and disables it. */
    method Unschedule(id: string)
      modifies this
      ensures jobs == old(jobs) && rows.Keys == old(rows).Keys
      ensures forall i | i in rows :: rows[i] == if i == id then old(rows)[i].(enabled := false) else old(rows)[i]
    {
      if id in rows { rows := rows[id := rows[id].(enabled := false)]; }
    }

    /** The rows the tick's query returns, in some order. */
    method DueRows(now: int) returns (dues: seq<string>)
      ensures forall id :: id in dues <==> id in rows && Due(rows[id], now)
      ensures forall j, k | 0 <= j < k < |dues| :: dues[j] != dues[k]
    {
      dues := [];
      var left := rows.Keys;
      while left != {}
        invariant left <= rows.Keys
        invariant forall id :: id in dues <==> id in rows && id !in left && Due(rows[id], now)
        invariant forall j, k | 0 <= j < k < |dues| :: dues[j] != dues[k]
        decreases left
      {
        var id :| id in left;
        left := left - {id};
        if Due(rows[id], now) { dues := dues + [id]; }
      }
    }

    /**
     The body of the tick's loop, for one row as the query returned it. The row may have been registered again since: the
     job is that of the old registration, and the UPDATE puts its next time over the new one.
     */
    method FireRow(id: string, seen: Row, tick: Tick)
      requires id in rows && Due(seen, tick.now)
      modifies this
      ensures rows == old(rows)[id := Overwritten(old(rows)[id], seen, tick)]
      ensures jobs == old(jobs) + if TickFires(seen, tick) then [JobFor(id, seen)] else []
    {
      hide NextMs, ScheduleOf;
      var parsed := ParseCron(seen.cron);
      if parsed.Failure? || !tick.inserted {
        assert rows == rows[id := rows[id]];
        return;
      }
      jobs := jobs + [JobFor(id, seen)];
      var next := NextMilli(parsed.value, seen.nextRunAt);
      if tick.advanced {
        rows := rows[id := rows[id].(nextRunAt := next, lastRunAt := Some(seen.nextRunAt))];
      } else {
        assert rows == rows[id := rows[id]];
      }
    }

    /** One tick: each row takes its step of the run above, and each row that fires has exactly one job inserted. */
    method SchedulerOnce(e: Clock)
      modifies this
      ensures TickStep(old(Tables(rows, jobs)), Tables(rows, jobs), e)
    {
      hide Ticked, Due, TickRow, TickFires;
      var dues := DueRows(e.now);
      var rows0 := rows;
      ghost var jobs0, new0, done: set<string> := jobs, [], {};
      NothingTicked(rows0, e);
      for k := 0 to |dues|
        invariant done == set j | 0 <= j < k :: dues[j]
        invariant jobs == jobs0 + new0 && Ticked(rows0, rows, new0, done, e)
      {
        var id := dues[k];
        assert id !in done && id in dues;
        TickOneMore(rows0, rows, new0, done, e, id);
        UnchangedRowTicks(rows0[id], TickOf(id, e));
        FireRow(id, rows0[id], TickOf(id, e));
        new0, done := new0 + FiredBy(id, rows0, e), done + {id};
      }
      assert jobs[|jobs0|..] == new0;
      RestIsNotDue(rows0, rows, new0, done, e);
    }
  }

  /** The clock of a tick, and the schedules whose INSERT or UPDATE fails in it. */
  datatype Clock = Clock(now: int, insertFails: set<string>, updateFails: set<string>)

  function TickOf(id: string, e: Clock): Tick {
    Tick(e.now, id !in e.insertFails, id !in e.updateFails)
  }

  function FiredBy(id: string, rows: map<string, Row>, e: Clock): seq<Job> {
    if id in rows && TickFires(rows[id], TickOf(id, e)) then [JobFor(id, rows[id])] else []
  }

  /** What the tick has done once it has dealt with the rows in `done`. */
  ghost predicate Ticked(rows0: map<string, Row>, rows: map<string, Row>, more: seq<Job>, done: set<string>, e: Clock) {
    && rows.Keys == rows0.Keys
    && (forall id | id in rows :: rows[id] == if id in done then TickRow(rows0[id], TickOf(id, e)) else rows0[id])
    && (forall id :: JobsOf(id, more) == if id in done then FiredBy(id, rows0, e) else [])
  }

  /** The tables as values: the schedules, and the jobs inserted for them. */
  datatype Tables = Tables(rows: map<string, Row>, jobs: seq<Job>)

  /** One tick. */
  ghost predicate TickStep(a: Tables, b: Tables, e: Clock) {
    a.jobs <= b.jobs && Ticked(a.rows, b.rows, b.jobs[|a.jobs|..], b.rows.Keys, e)
  }

  /** The tables over a run of ticks, with no registration in between. */
  ghost predicate TickRun(run: seq<Tables>, clocks: seq<Clock>) {
    |run| == |clocks| + 1 && forall i | 0 <= i < |clocks| :: TickStep(run[i], run[i + 1], clocks[i])
  }

  /** A run of ticks as one schedule meets it. */
  function TicksOf(id: string, clocks: seq<Clock>): (ticks: seq<Tick>)
    ensures |ticks| == |clocks|
    ensures forall k: nat | k < |clocks| ::
              && ticks[k].now == clocks[k].now
              && (ticks[k].inserted <==> id !in clocks[k].insertFails) && (ticks[k].advanced <==> id !in clocks[k].updateFails)
  {
    seq(|clocks|, i requires 0 <= i < |clocks| => TickOf(id, clocks[i]))
  }

  /** The job a schedule gets for one of its times: of the type and payload registered, and due at that time. */
  predicate IsJobFor(job: Job, id: string, row: Row, at: int) {
    job.origin == id && job.jobType == row.jobType && job.payload == row.payload && job.runAt == at
  }

  lemma {:induction false} JobsOfConcat(id: string, a: seq<Job>, b: seq<Job>)
    ensures JobsOf(id, a + b) == JobsOf(id, a) + JobsOf(id, b)
  {
    if b == [] {
      assert a + b == a;
    } else {
      assert (a + b)[..|a + b| - 1] == a + b[..|b| - 1];
      JobsOfConcat(id, a, b[..|b| - 1]);
    }
  }

  /** The jobs that the table has got for a schedule since. */
  function NewJobs(id: string, a: Tables, b: Tables): seq<Job> {
    if a.jobs <= b.jobs then JobsOf(id, b.jobs[|a.jobs|..]) else []
  }

  lemma NewJobsAdd(id: string, a: Tables, b: Tables, c: Tables)
    requires a.jobs <= b.jobs <= c.jobs
    ensures NewJobs(id, a, c) == NewJobs(id, a, b) + NewJobs(id, b, c)
  {
    assert c.jobs[|a.jobs|..] == b.jobs[|a.jobs|..] + c.jobs[|b.jobs|..];
    JobsOfConcat(id, b.jobs[|a.jobs|..], c.jobs[|b.jobs|..]);
  }

  /**
   From a to b, the row has lived through the ticks, and the jobs it got are its firings: as many, in order, the k-th one
   due when the k-th firing was, with the type and payload that were registered.
   */
  ghost predicate JobsFollow(a: Tables, b: Tables, id: string, row: Row, ticks: seq<Tick>) {
    && a.jobs <= b.jobs && id in b.rows && b.rows[id] == AfterTicks(row, ticks)
    && var made, fs := NewJobs(id, a, b), Firings(row, ticks);
       |made| == |fs| && forall k: nat | k < |made| :: IsJobFor(made[k], id, row, fs[k].runAt)
  }

  lemma OneMoreTick(a: Tables, b: Tables, c: Tables, id: string, row: Row, ticks: seq<Tick>, e: Clock)
    requires JobsFollow(a, b, id, row, ticks) && TickStep(b, c, e)
    ensures JobsFollow(a, c, id, row, ticks + [TickOf(id, e)])
  {
    hide NextMs, ScheduleOf, JobsOf, TickFires;
    var tick, more := TickOf(id, e), ticks + [TickOf(id, e)];
    assert more[..|more| - 1] == ticks;
    RowKeepsItsIdentity(row, ticks);
    NewJobsAdd(id, a, b, c);
    assert NewJobs(id, b, c) == FiredBy(id, b.rows, e);
  }

  lemma RunUpTo(run: seq<Tables>, clocks: seq<Clock>)
    requires TickRun(run, clocks) && clocks != []
    ensures var n := |clocks| - 1; TickRun(run[..n + 1], clocks[..n]) && TickStep(run[n], run[n + 1], clocks[n])
  {
    hide TickStep;
    var n := |clocks| - 1;
    forall i | 0 <= i < n ensures TickStep(run[..n + 1][i], run[..n + 1][i + 1], clocks[..n][i]) {
      assert TickStep(run[i], run[i + 1], clocks[i]);
    }
  }

  /** Over any run of ticks, whatever fails, the jobs that the table gets for a schedule are its firings. */
  lemma {:induction false} JobsAreFirings(run: seq<Tables>, clocks: seq<Clock>, id: string)
    requires TickRun(run, clocks) && id in run[0].rows
    ensures JobsFollow(run[0], run[|clocks|], id, run[0].rows[id], TicksOf(id, clocks))
    decreases |clocks|
  {
    hide JobsFollow, TickStep, TicksOf, TickOf;
    if clocks == [] {
      NoTicks(run[0], id);
      NoTicksOf(id);
    } else {
      var n := |clocks| - 1;
      RunUpTo(run, clocks);
      JobsAreFirings(run[..n + 1], clocks[..n], id);
      OneMoreTick(run[0], run[n], run[n + 1], id, run[0].rows[id], TicksOf(id, clocks[..n]), clocks[n]);
      TicksOfMore(id, clocks);
    }
  }

  lemma NoTicks(a: Tables, id: string)
    requires id in a.rows
    ensures JobsFollow(a, a, id, a.rows[id], [])
  {
    assert a.jobs[|a.jobs|..] == [];
  }

  lemma NoTicksOf(id: string)
    ensures TicksOf(id, []) == []
  {
  }

  lemma TicksOfMore(id: string, clocks: seq<Clock>)
    requires clocks != []
    ensures var n := |clocks| - 1; TicksOf(id, clocks[..n]) + [TickOf(id, clocks[n])] == TicksOf(id, clocks)
  {
  }

  /**
   Exactly once, on the table: a schedule registered at one of its matches gets, over a run of ticks, one job for each
   match before its next_run_at, in order, as long as its UPDATEs succeed and each search finds a match.
   */
  lemma EveryMatchHasOneJob(run: seq<Tables>, clocks: seq<Clock>, id: string, s: Schedule, t: int)
    requires TickRun(run, clocks) && id in run[0].rows
    requires var row, fs := run[0].rows[id], Firings(run[0].rows[id], TicksOf(id, clocks));
             ScheduleOf(row.cron) == Some(s) && FiresAt(s, row.nextRunAt) && AllAdvance(fs) && AllFound(s, fs)
    ensures id in run[|clocks|].rows
    ensures var made := NewJobs(id, run[0], run[|clocks|]);
            && (forall j, k | 0 <= j < k < |made| :: made[j].runAt < made[k].runAt)
            && (FiresAt(s, t) && run[0].rows[id].nextRunAt <= t < run[|clocks|].rows[id].nextRunAt <==>
                exists job :: job in made && job.runAt == t)
  {
    hide FiresAt, Firings, AfterTicks, AllAdvance, AllFound, ScheduleOf, TicksOf, TickStep, NewJobs;
    JobsAreFirings(run, clocks, id);
    var row, ticks := run[0].rows[id], TicksOf(id, clocks);
    EveryMatchFiresOnce(row, ticks, s, t);
    var made, fs := NewJobs(id, run[0], run[|clocks|]), Firings(row, ticks);
    assert forall k: nat | k < |made| :: made[k].runAt == fs[k].runAt;
    if f :| f in fs && f.runAt == t {
      var k: nat :| k < |fs| && fs[k] == f;
      assert made[k] in made && made[k].runAt == t;
    }
    if job :| job in made && job.runAt == t {
      var k: nat :| k < |made| && made[k] == job;
      assert fs[k] in fs && fs[k].runAt == t;
    }
  }

  lemma NothingTicked(rows: map<string, Row>, e: Clock)
    ensures Ticked(rows, rows, [], {}, e)
  {
  }

  lemma FiredShape(id: string, rows: map<string, Row>, e: Clock)
    ensures |FiredBy(id, rows, e)| <= 1 && forall j | j in FiredBy(id, rows, e) :: j.origin == id
  {
  }

  lemma TickOneMore(rows0: map<string, Row>, rows: map<string, Row>, more: seq<Job>, done: set<string>, e: Clock, id: string)
    requires Ticked(rows0, rows, more, done, e) && id in rows0 && id !in done
    ensures id in rows && rows[id] == rows0[id] && TickOf(id, e).now == e.now
    ensures Ticked(rows0, rows[id := TickRow(rows0[id], TickOf(id, e))], more + FiredBy(id, rows0, e), done + {id}, e)
  {
    hide TickRow, TickFires, JobsOf, FiredBy;
    var fired := FiredBy(id, rows0, e);
    FiredShape(id, rows0, e);
    forall i ensures JobsOf(i, more + fired) == if i in done + {id} then FiredBy(i, rows0, e) else [] {
      OneMoreJob(i, more, id, fired);
      assert JobsOf(i, more) == if i in done then FiredBy(i, rows0, e) else [];
    }
  }

  lemma RestIsNotDue(rows0: map<string, Row>, rows: map<string, Row>, more: seq<Job>, done: set<string>, e: Clock)
    requires Ticked(rows0, rows, more, done, e)
    requires forall id | id in rows0 && id !in done :: !Due(rows0[id], e.now)
    ensures Ticked(rows0, rows, more, rows.Keys, e)
  {
    hide JobsOf, NextMs, ScheduleOf;
  }

  lemma OneMoreJob(i: string, jobs: seq<Job>, id: string, more: seq<Job>)
    requires |more| <= 1 && forall j | j in more :: j.origin == id
    ensures JobsOf(i, jobs + more) == JobsOf(i, jobs) + if i == id then more else []
  {
    if more == [] {
      assert jobs + more == jobs;
    } else {
      assert (jobs + more)[..|jobs|] == jobs && more == [more[0]];
    }
  }

  /** The jobs inserted for one schedule. */
  function JobsOf(id: string, jobs: seq<Job>): seq<Job> {
    if jobs == [] then []
    else JobsOf(id, jobs[..|jobs| - 1]) + if jobs[|jobs| - 1].origin == id then [jobs[|jobs| - 1]] else []
  }
}
