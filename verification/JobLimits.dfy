/** Concurrency caps and sliding-window rate limits: what they bound in the table, and when they bound executions. */
module JobLimits {
  import opened Options
  import opened JobQueue
  import opened JobInvariants

  lemma {:induction false} SubsetSize<T>(a: set<T>, b: set<T>)
    requires a <= b
    ensures |a| <= |b|
  {
    if a != {} {
      var x :| x in a;
      SubsetSize(a - {x}, b - {x});
    }
  }

  // --------------------------------------------------------------------- caps

  predicate WithinCap(db: Db, t: string) {
    t in db.caps ==> |RunningOf(db, t)| <= db.caps[t]
  }

  predicate ChangesCap(e: Event, t: string) {
    e.SetConcurrency? && e.jobType == t
  }

  /** Only a claim makes a row running, and it makes one. */
  lemma RunningRows(s: System, e: Event, t: string)
    requires Possible(e)
    ensures var before, after := RunningOf(s.db, t), RunningOf(Step(s, e).db, t);
            if e.Claim? && Claimable(s.db, e.id, e.now) && s.db.jobs[e.id].jobType == t
            then after == before + {e.id}
            else after <= before
  {
  }

  /** While a cap stays as it is, no step takes the running rows of the type above it. */
  lemma StepKeepsCap(s: System, e: Event, t: string)
    requires Possible(e) && !ChangesCap(e, t) && WithinCap(s.db, t)
    ensures WithinCap(Step(s, e).db, t)
  {
    var before, after := RunningOf(s.db, t), RunningOf(Step(s, e).db, t);
    RunningRows(s, e, t);
    SubsetSize(before, CountedRunning(s.db));
    if after <= before { SubsetSize(after, before); }
  }

  lemma {:induction false} RunKeepsCap(s: System, events: seq<Event>, t: string)
    requires AllPossible(events) && (forall e | e in events :: !ChangesCap(e, t)) && WithinCap(s.db, t)
    ensures WithinCap(Run(s, events).db, t)
  {
    hide Step, WithinCap, ChangesCap;
    if events != [] {
      var n := |events| - 1;
      RunKeepsCap(s, events[..n], t);
      assert events[n] in events;
      StepKeepsCap(Run(s, events[..n]), events[n], t);
    }
  }

  // -------------------------------------------------------------------- rates

  /** No half-open window of the period holds more recorded starts of the type than the capacity. */
  ghost predicate WithinRate(db: Db, t: string) {
    t in db.rates ==> forall from :: |Window(db, t, from)| <= db.rates[t].capacity
  }

  function Window(db: Db, t: string, from: int): set<Id>
    requires t in db.rates
  {
    StartedIn(db, t, from, from + db.rates[t].periodMs)
  }

  predicate ChangesRate(e: Event, t: string) {
    e.SetRateLimit? && e.jobType == t
  }

  lemma StartedRows(s: System, e: Event, t: string, from: int, to: int)
    requires Inv(s) && Possible(e)
    ensures var before, after := StartedIn(s.db, t, from, to), StartedIn(Step(s, e).db, t, from, to);
            if e.Claim? && Claimable(s.db, e.id, e.now) && s.db.jobs[e.id].jobType == t && from <= e.now < to
            then after == before + {e.id}
            else after <= before
  {
  }

  lemma RateStays(s: System, e: Event, t: string)
    requires !ChangesRate(e, t)
    ensures var before, after := s.db.rates, Step(s, e).db.rates;
            (t in after <==> t in before) && (t in before ==> after[t] == before[t])
  {
  }

  /** The claim's COUNT covers every window that could hold the new start. */
  lemma WindowHasRoom(db: Db, id: Id, now: int, from: int)
    requires Claimable(db, id, now) && db.jobs[id].jobType in db.rates
    requires var r := db.rates[db.jobs[id].jobType]; from <= now < from + r.periodMs
    ensures |Window(db, db.jobs[id].jobType, from)| < db.rates[db.jobs[id].jobType].capacity
  {
    var t := db.jobs[id].jobType;
    SubsetSize(Window(db, t, from), CountedStarts(db, now));
  }

  lemma StepKeepsWindow(s: System, e: Event, t: string, from: int)
    requires Inv(s) && Possible(e) && t in s.db.rates && t in Step(s, e).db.rates
    requires Step(s, e).db.rates[t] == s.db.rates[t] && |Window(s.db, t, from)| <= s.db.rates[t].capacity
    ensures |Window(Step(s, e).db, t, from)| <= s.db.rates[t].capacity
  {
    hide Inv, Step, StartedIn, CountedStarts, Possible;
    var before, after := Window(s.db, t, from), Window(Step(s, e).db, t, from);
    StartedRows(s, e, t, from, from + s.db.rates[t].periodMs);
    if after <= before {
      SubsetSize(after, before);
    } else {
      WindowHasRoom(s.db, e.id, e.now, from);
    }
  }

  /**
   While a type's rate limit stays as it is, no step puts more starts of the type into any window than it allows,
   however the workers' clocks disagree.
   */
  lemma StepKeepsRate(s: System, e: Event, t: string)
    requires Inv(s) && Possible(e) && !ChangesRate(e, t) && WithinRate(s.db, t)
    ensures WithinRate(Step(s, e).db, t)
  {
    hide Inv, Step, Possible, ChangesRate, Window;
    RateStays(s, e, t);
    if t in s.db.rates {
      forall from ensures |Window(Step(s, e).db, t, from)| <= s.db.rates[t].capacity {
        StepKeepsWindow(s, e, t, from);
      }
    }
  }

  lemma {:induction false} RunKeepsRate(s: System, events: seq<Event>, t: string)
    requires Inv(s) && AllPossible(events) && (forall e | e in events :: !ChangesRate(e, t)) && WithinRate(s.db, t)
    ensures WithinRate(Run(s, events).db, t)
  {
    hide Step, WithinRate, ChangesRate, Inv;
    if events != [] {
      var n := |events| - 1;
      RunKeepsRate(s, events[..n], t);
      RunKeepsInv(s, events[..n]);
      assert events[n] in events;
      StepKeepsRate(Run(s, events[..n]), events[n], t);
    }
  }

  // -------------------------------------------------- limits of one type, and others

  /** The claim as the limits are documented: a type's running rows and starts count against its own limits only. */
  predicate AllowedByOwnType(db: Db, id: Id, now: int) {
    Ready(db, id, now) && BelowOwnCap(db, db.jobs[id].jobType) && BelowOwnRate(db, db.jobs[id].jobType, now)
  }

  predicate BelowOwnCap(db: Db, t: string) {
    t in db.caps ==> |RunningOf(db, t)| < db.caps[t]
  }

  predicate BelowOwnRate(db: Db, t: string, now: int) {
    t in db.rates ==> |StartedAfter(db, t, now - db.rates[t].periodMs)| < db.rates[t].capacity
  }

  function OthersRunning(db: Db, t: string): set<Id> {
    set id | id in db.jobs && db.jobs[id].jobType != t && db.jobs[id].status == Running
  }

  function OthersStarts(db: Db, t: string, now: int): set<Id> {
    set id | id in db.jobs && db.jobs[id].jobType != t && StartCounts(db, now, db.jobs[id])
  }

  lemma SumOfParts(whole: set<Id>, a: set<Id>, b: set<Id>)
    requires whole == a + b && a !! b
    ensures |whole| == |a| + |b|
  {
  }

  /** The cap's COUNT is the running rows of the type and those of all others. */
  lemma CountedRunningSize(db: Db, t: string)
    ensures |CountedRunning(db)| == |RunningOf(db, t)| + |OthersRunning(db, t)|
  {
    SumOfParts(CountedRunning(db), RunningOf(db, t), OthersRunning(db, t));
  }

  /** The rate limit's COUNT is the starts in the type's own window and those of other limited types in theirs. */
  lemma CountedStartsSize(db: Db, t: string, now: int)
    requires t in db.rates
    ensures |CountedStarts(db, now)| == |StartedAfter(db, t, now - db.rates[t].periodMs)| + |OthersStarts(db, t, now)|
  {
    SumOfParts(CountedStarts(db, now), StartedAfter(db, t, now - db.rates[t].periodMs), OthersStarts(db, t, now));
  }

  /**
   A claim that takes effect is within its own type's limits. A claim within them takes effect if and only if the rows
   of other types leave room: under a cap, its running rows and theirs together; under a rate limit, the starts in its
   own window and those of the other limited types in theirs.
   */
  lemma OtherTypesCount(db: Db, id: Id, now: int)
    ensures Claimable(db, id, now) ==> AllowedByOwnType(db, id, now)
    ensures AllowedByOwnType(db, id, now) ==>
              var t := db.jobs[id].jobType;
              Claimable(db, id, now) <==>
                && (t in db.caps ==> |RunningOf(db, t)| + |OthersRunning(db, t)| < db.caps[t])
                && (t in db.rates ==>
                    |StartedAfter(db, t, now - db.rates[t].periodMs)| + |OthersStarts(db, t, now)| < db.rates[t].capacity)
  {
    hide RunningOf, OthersRunning, StartedAfter, OthersStarts, CountedRunning, CountedStarts;
    if id in db.jobs {
      var t := db.jobs[id].jobType;
      CountedRunningSize(db, t);
      if t in db.rates { CountedStartsSize(db, t, now); }
    }
  }

  /** Below its own cap, a type is refused by the cap if and only if the other types' running rows fill it up. */
  lemma RefusedByOthersCap(db: Db, t: string)
    requires t in db.caps && BelowOwnCap(db, t)
    ensures !CapAllows(db, t) <==> |RunningOf(db, t)| + |OthersRunning(db, t)| >= db.caps[t]
  {
    hide RunningOf, OthersRunning, CountedRunning;
    CountedRunningSize(db, t);
  }

  /** Below its own rate, a type is refused by the limit if and only if the other limited types' starts fill it up. */
  lemma RefusedByOthersRate(db: Db, t: string, now: int)
    requires t in db.rates && BelowOwnRate(db, t, now)
    ensures !RateAllows(db, t, now) <==>
            |StartedAfter(db, t, now - db.rates[t].periodMs)| + |OthersStarts(db, t, now)| >= db.rates[t].capacity
  {
    hide StartedAfter, OthersStarts, CountedStarts;
    CountedStartsSize(db, t, now);
  }

  // -------------------------------------------------- starts, and their records

  /** The event starts an execution of the type at a time in [from, to). */
  predicate Starts(s: System, e: Event, t: string, from: int, to: int) {
    e.Claim? && Claimable(s.db, e.id, e.now) && s.db.jobs[e.id].jobType == t && from <= e.now < to
  }

  /** How many executions of the type a run starts in [from, to). */
  function StartCount(s: System, events: seq<Event>, t: string, from: int, to: int): nat {
    if events == [] then 0
    else
      var before := Run(s, events[..|events| - 1]);
      StartCount(s, events[..|events| - 1], t, from, to) + if Starts(before, events[|events| - 1], t, from, to) then 1 else 0
  }

  /** How many records of such starts a run loses, to retries, releases, sweeps and reaps. */
  function ForgottenCount(s: System, events: seq<Event>, t: string, from: int, to: int): nat {
    if events == [] then 0
    else
      var before, after := Run(s, events[..|events| - 1]), Run(s, events);
      ForgottenCount(s, events[..|events| - 1], t, from, to)
      + |StartedIn(before.db, t, from, to) - StartedIn(after.db, t, from, to)|
  }

  lemma NewStartIsNew(s: System, e: Event, t: string, from: int, to: int)
    requires Inv(s) && Starts(s, e, t, from, to)
    ensures e.id !in StartedIn(s.db, t, from, to)
  {
    assert RowOk(s.db.jobs[e.id]);
  }

  /** Every start is either still recorded or counted as forgotten. */
  lemma {:induction false} StartsAreAccountedFor(s: System, events: seq<Event>, t: string, from: int, to: int)
    requires Inv(s) && AllPossible(events)
    ensures StartCount(s, events, t, from, to) + |StartedIn(s.db, t, from, to)| ==
            ForgottenCount(s, events, t, from, to) + |StartedIn(Run(s, events).db, t, from, to)|
  {
    hide Inv, Step, StartedIn, Possible, Claimable;
    if events != [] {
      var n := |events| - 1;
      var before, e := Run(s, events[..n]), events[n];
      StartsAreAccountedFor(s, events[..n], t, from, to);
      RunKeepsInv(s, events[..n]);
      assert e in events;
      StartedRows(before, e, t, from, to);
      var x, y := StartedIn(before.db, t, from, to), StartedIn(Step(before, e).db, t, from, to);
      if Starts(before, e, t, from, to) {
        NewStartIsNew(before, e, t, from, to);
        assert x - y == {};
      } else {
        assert x == y + (x - y);
      }
    }
  }

  /**
   The executions that start in a window exceed the limit by at most the records lost: with none lost, the limit bounds
   executions, not only rows.
   */
  lemma ExecutionsWithinRate(s: System, events: seq<Event>, t: string, from: int)
    requires Inv(s) && AllPossible(events) && (forall e | e in events :: !ChangesRate(e, t))
    requires t in s.db.rates && WithinRate(s.db, t)
    ensures var rate := s.db.rates[t];
            StartCount(s, events, t, from, from + rate.periodMs) <=
            rate.capacity + ForgottenCount(s, events, t, from, from + rate.periodMs)
  {
    hide Inv, Step, StartedIn, Starts, AllPossible;
    RunKeepsRate(s, events, t);
    RunRateStays(s, events, t);
    StartsAreAccountedFor(s, events, t, from, from + s.db.rates[t].periodMs);
    assert |Window(Run(s, events).db, t, from)| <= s.db.rates[t].capacity;
  }

  lemma {:induction false} RunRateStays(s: System, events: seq<Event>, t: string)
    requires (forall e | e in events :: !ChangesRate(e, t)) && t in s.db.rates
    ensures t in Run(s, events).db.rates && Run(s, events).db.rates[t] == s.db.rates[t]
  {
    hide Step, ChangesRate;
    if events != [] {
      var n := |events| - 1;
      RunRateStays(s, events[..n], t);
      assert events[n] in events;
      RateStays(Run(s, events[..n]), events[n], t);
    }
  }

  // ------------------------------------------------ executions, and running rows

  /** Every handler at work has its own row, and that row is running. */
  ghost predicate Owned(s: System) {
    && (forall k | k in s.flights :: s.flights[k].id in s.db.jobs && s.db.jobs[s.flights[k].id].status == Running)
    && (forall j, k | j in s.flights && k in s.flights && j != k :: s.flights[j].id != s.flights[k].id)
  }

  /** The event is not a sweep that reclaims a job whose handler is still at work. */
  ghost predicate Spares(s: System, e: Event) {
    e.Sweep? ==> forall k | k in s.flights && s.flights[k].id in s.db.jobs :: !Orphaned(s.db.jobs[s.flights[k].id], e.now)
  }

  lemma FinishKeepsOwned(s: System, k: nat, outcome: Outcome, now: int)
    requires Owned(s)
    ensures Owned(Step(s, Finish(k, outcome, now)))
  {
    hide FinishedRow;
  }

  lemma ClaimKeepsOwned(s: System, e: Event)
    requires e.Claim? && Owned(s)
    ensures Owned(Step(s, e))
  {
    hide CapAllows, RateAllows;
  }

  lemma SweepKeepsOwned(s: System, now: int)
    requires Inv(s) && Owned(s)
    ensures Owned(Step(s, Sweep(now))) <==> Spares(s, Sweep(now))
  {
    hide KeysUnique;
    forall k | k in s.flights
      ensures SweptRow(s.db.jobs[s.flights[k].id], now).status == Running <==> !Orphaned(s.db.jobs[s.flights[k].id], now)
    {
    }
  }

  lemma ReapKeepsOwned(s: System, cutoff: int)
    requires Owned(s)
    ensures Owned(Step(s, Reap(cutoff)))
  {
  }

  lemma InsertKeepsOwned(s: System, id: Id, row: Row)
    requires Owned(s)
    ensures Owned(Step(s, Insert(id, row)))
  {
    hide KeyTaken;
  }

  /** Handlers and running rows stay matched exactly as long as no sweep takes a job from a live handler. */
  lemma StepKeepsOwned(s: System, e: Event)
    requires Inv(s) && Owned(s)
    ensures Owned(Step(s, e)) <==> Spares(s, e)
  {
    hide Inv, Owned, Inserted, Claimed, Swept, Reaped, Finished, Claimable;
    match e
    case Insert(id, row) => InsertKeepsOwned(s, id, row);
    case Claim(_, _, _, _, _) => ClaimKeepsOwned(s, e);
    case Finish(k, outcome, now) => FinishKeepsOwned(s, k, outcome, now);
    case Crash(k) => CrashKeepsOwned(s, k);
    case Sweep(now) => SweepKeepsOwned(s, now);
    case Reap(cutoff) => ReapKeepsOwned(s, cutoff);
    case SetConcurrency(t, cap) => LimitsKeepOwned(s, Step(s, e));
    case SetRateLimit(t, n, per) => LimitsKeepOwned(s, Step(s, e));
  }

  lemma CrashKeepsOwned(s: System, k: nat)
    requires Owned(s)
    ensures Owned(Step(s, Crash(k)))
  {
  }

  lemma LimitsKeepOwned(s: System, n: System)
    requires Owned(s) && n.db.jobs == s.db.jobs && n.flights == s.flights
    ensures Owned(n)
  {
  }

  function HandlersOf(s: System, t: string): set<nat> {
    set k | k in s.flights && s.flights[k].id in s.db.jobs && s.db.jobs[s.flights[k].id].jobType == t
  }

  lemma {:induction false} ImageSize(s: System, ks: set<nat>)
    requires ks <= s.flights.Keys && Owned(s)
    ensures |ks| == |set k | k in ks :: s.flights[k].id|
  {
    if ks != {} {
      var k :| k in ks;
      ImageSize(s, ks - {k});
      assert (set j | j in ks :: s.flights[j].id) == (set j | j in ks - {k} :: s.flights[j].id) + {s.flights[k].id};
    }
  }

  /** Then the cap bounds the handlers at work. */
  lemma HandlersWithinCap(s: System, t: string)
    requires Owned(s) && WithinCap(s.db, t) && t in s.db.caps
    ensures |HandlersOf(s, t)| <= s.db.caps[t]
  {
    ImageSize(s, HandlersOf(s, t));
    SubsetSize(set k | k in HandlersOf(s, t) :: s.flights[k].id, RunningOf(s.db, t));
  }

  ghost predicate AllSpare(s: System, events: seq<Event>) {
    forall n | 0 <= n < |events| :: Spares(Run(s, events[..n]), events[n])
  }

  /** Over a run whose sweeps reclaim only the jobs of dead workers, at most `cap` handlers of the type are ever at work. */
  lemma {:induction false} ExecutionsWithinCap(s: System, events: seq<Event>, t: string)
    requires Inv(s) && Owned(s) && AllPossible(events) && AllSpare(s, events)
    requires (forall e | e in events :: !ChangesCap(e, t)) && WithinCap(s.db, t)
    ensures Owned(Run(s, events))
    ensures t in Run(s, events).db.caps ==> |HandlersOf(Run(s, events), t)| <= Run(s, events).db.caps[t]
  {
    hide Inv, Owned, Step, Spares, WithinCap, HandlersOf, ChangesCap, Possible;
    RunKeepsCap(s, events, t);
    RunKeepsOwned(s, events);
    if t in Run(s, events).db.caps { HandlersWithinCap(Run(s, events), t); }
  }

  lemma {:induction false} RunKeepsOwned(s: System, events: seq<Event>)
    requires Inv(s) && Owned(s) && AllPossible(events) && AllSpare(s, events)
    ensures Owned(Run(s, events))
  {
    hide Inv, Owned, Step, Spares, Possible;
    if events != [] {
      var n := |events| - 1;
      BeginningSpares(s, events);
      RunKeepsOwned(s, events[..n]);
      RunKeepsInv(s, events[..n]);
      assert events[n] in events;
      StepKeepsOwned(Run(s, events[..n]), events[n]);
    }
  }

  // -------------------------------------------------- finished jobs stay finished

  /** While handlers are matched with running rows, a finished row that is kept is not changed. */
  lemma FinishedRowsRest(s: System, e: Event, id: Id)
    requires Inv(s) && Possible(e) && Owned(s) && id in s.db.jobs && !Live(s.db.jobs[id]) && id in Step(s, e).db.jobs
    ensures Step(s, e).db.jobs[id] == s.db.jobs[id]
  {
    hide KeysUnique, KeyTaken, CapAllows, RateAllows;
  }

  predicate Inserts(e: Event, id: Id) {
    e.Insert? && e.id == id
  }

  lemma StaysGone(s: System, e: Event, id: Id)
    requires id !in s.db.jobs && !Inserts(e, id)
    ensures id !in Step(s, e).db.jobs
  {
    hide KeyTaken, CapAllows, RateAllows;
  }

  /** Over a run whose sweeps reclaim only jobs of dead workers, a finished job stays as it finished, until it is reaped. */
  lemma {:induction false} FinishedJobsStayFinished(s: System, events: seq<Event>, id: Id)
    requires Inv(s) && Owned(s) && AllPossible(events) && AllSpare(s, events)
    requires id in s.db.jobs && !Live(s.db.jobs[id]) && forall e | e in events :: !Inserts(e, id)
    ensures id in Run(s, events).db.jobs ==> Run(s, events).db.jobs[id] == s.db.jobs[id]
  {
    hide Inv, Owned, Step, Spares, Possible, Inserts;
    if events != [] {
      var n := |events| - 1;
      BeginningSpares(s, events);
      FinishedJobsStayFinished(s, events[..n], id);
      RunKeepsOwned(s, events[..n]);
      RunKeepsInv(s, events[..n]);
      var before := Run(s, events[..n]);
      assert events[n] in events;
      if id in before.db.jobs {
        if id in Step(before, events[n]).db.jobs { FinishedRowsRest(before, events[n], id); }
      } else {
        StaysGone(before, events[n], id);
      }
    }
  }

  lemma BeginningSpares(s: System, events: seq<Event>)
    requires AllSpare(s, events) && events != []
    ensures AllSpare(s, events[..|events| - 1]) && Spares(Run(s, events[..|events| - 1]), events[|events| - 1])
  {
    hide Spares, Run;
    var n := |events| - 1;
    forall i | 0 <= i < n ensures Spares(Run(s, events[..n][..i]), events[..n][i]) {
      assert events[..n][..i] == events[..i];
    }
  }
}
