/** Runs that break what the comments and documentation of the queue promise, where the theorems need their hypotheses. */
module JobSurprises {
  import opened Options
  import opened JobQueue
  import opened JobInvariants
  import opened JobLimits
  import opened JobAttempts

  lemma EmptyRun(s: System, id: Id)
    ensures Run(s, []) == s && TallyOf(s, [], id) == NOTHING
  {
  }

  lemma RunOneMore(s: System, events: seq<Event>, e: Event)
    ensures Run(s, events + [e]) == Step(Run(s, events), e)
  {
    assert (events + [e])[..|events|] == events;
  }

  lemma RunTwo(s: System, a: Event, b: Event)
    ensures Run(s, [a]) == Step(s, a) && Run(s, [a, b]) == Step(Step(s, a), b)
  {
    RunOneMore(s, [], a);
    RunOneMore(s, [a], b);
    assert [] + [a] == [a] && [a] + [b] == [a, b];
  }

  lemma RunThree(s: System, a: Event, b: Event, c: Event)
    ensures Run(s, [a, b, c]) == Step(Step(Step(s, a), b), c)
  {
    RunTwo(s, a, b);
    RunOneMore(s, [a, b], c);
    assert [a, b] + [c] == [a, b, c];
  }

  /** A pending job, alone in the table, due at `now`. */
  predicate Waiting(db: Db, id: Id, now: int) {
    && db.jobs.Keys == {id} && db.jobs[id].status == Pending && db.jobs[id].runAt <= now && db.jobs[id].startedAt.None?
  }

  predicate Alone(s: System, id: Id, now: int) {
    Waiting(s.db, id, now) && s.flights == map[]
  }

  /** A claim whose worker read the row when the job had been claimed `more` times since `db`. */
  function FreshClaim(db: Db, id: Id, now: int, node: string, more: nat): Event
    requires id in db.jobs
  {
    Claim(id, now, node, db.jobs[id].attempts + more, db.jobs[id].maxAttempts)
  }

  lemma WaitingIsClaimable(db: Db, id: Id, now: int)
    requires Waiting(db, id, now) && db.rates == map[]
    requires db.caps == map[] || db.caps == map[db.jobs[id].jobType := 1]
    ensures Claimable(db, id, now)
  {
    assert CountedRunning(db) == {};
  }

  /**
   Simultaneous executions are not capped, as the comment on SetConcurrency has it: a job swept from a slow but living
   worker runs a second time beside the first, under a cap of one.
   */
  lemma SweptJobRunsTwice(s: System, id: Id, now: int)
    requires Alone(s, id, now) && s.db.jobs[id].timeoutMs > 0 && s.db.rates == map[]
    requires s.db.caps == map[s.db.jobs[id].jobType := 1]
    ensures var later := now + s.db.jobs[id].timeoutMs + 1;
            var n := Run(s, [FreshClaim(s.db, id, now, "a", 0), Sweep(later), FreshClaim(s.db, id, later, "b", 1)]);
            WithinCap(n.db, s.db.jobs[id].jobType) && |HandlersOf(n, s.db.jobs[id].jobType)| == 2
  {
    hide Claimable, RunningOf, HandlersOf;
    var later, t := now + s.db.jobs[id].timeoutMs + 1, s.db.jobs[id].jobType;
    var a, b, c := FreshClaim(s.db, id, now, "a", 0), Sweep(later), FreshClaim(s.db, id, later, "b", 1);
    RunThree(s, a, b, c);
    WaitingIsClaimable(s.db, id, now);
    var s2 := Step(Step(s, a), b);
    assert Waiting(s2.db, id, later);
    WaitingIsClaimable(s2.db, id, later);
    TwoHandlers(Step(s2, c), id, s.next, t);
  }

  lemma TwoHandlers(n: System, id: Id, k: nat, t: string)
    requires n.db.jobs.Keys == {id} && n.db.jobs[id].jobType == t && n.db.caps == map[t := 1]
    requires n.flights.Keys == {k, k + 1} && n.flights[k].id == n.flights[k + 1].id == id
    ensures WithinCap(n.db, t) && |HandlersOf(n, t)| == 2
  {
    SubsetSize(RunningOf(n.db, t), {id});
    assert HandlersOf(n, t) == {k, k + 1};
  }

  /** Nor are the executions that start in a rolling window: a retry clears the record of the first start. */
  lemma RetriedStartIsForgotten(s: System, id: Id, now: int, period: int)
    requires Alone(s, id, now) && s.db.caps == map[] && period >= 2 && s.db.jobs[id].uniqueKey.None?
    requires s.db.rates == map[s.db.jobs[id].jobType := Rate(1, period)]
    requires s.db.jobs[id].attempts + 1 < s.db.jobs[id].maxAttempts
    ensures var events := [FreshClaim(s.db, id, now, "a", 0), Finish(s.next, Failed("error", now + 1), now),
                           FreshClaim(s.db, id, now + 1, "a", 1)];
            StartCount(s, events, s.db.jobs[id].jobType, now, now + period) == 2
  {
    var t := s.db.jobs[id].jobType;
    var a, b := FreshClaim(s.db, id, now, "a", 0), Finish(s.next, Failed("error", now + 1), now);
    var c := FreshClaim(s.db, id, now + 1, "a", 1);
    RunTwo(s, a, b);
    assert CountedStarts(s.db, now) == {};
    var s1 := Step(s, a);
    var s2 := Step(s1, b);
    assert s2.db.jobs[id].status == Pending && s2.db.jobs.Keys == {id};
    assert CountedStarts(s2.db, now + 1) == {};
    assert [a, b, c][..2] == [a, b] && [a, b][..1] == [a] && [a][..0] == [];
    assert StartCount(s, [a], t, now, now + period) == 1;
    assert StartCount(s, [a, b], t, now, now + period) == 1;
  }

  /** An empty queue, and nobody at work. */
  const EMPTY := System(Db(map[], map[], map[]), map[], 0)

  /** A job without unique key, due from time 0 on. */
  function Simple(jobType: string): Row {
    NewRow(jobType, 0, 1, 0, 0, None, 1)
  }

  function TwoJobs(a: string, b: string): Db {
    Db(map["x" := Simple(a), "y" := Simple(b)], map[], map[])
  }

  lemma TwoJobsInserted(a: string, b: string)
    ensures Step(Step(EMPTY, Insert("x", Simple(a))), Insert("y", Simple(b))).db.jobs == TwoJobs(a, b).jobs
    ensures Possible(Insert("x", Simple(a))) && Possible(Insert("y", Simple(b)))
  {
  }

  /**
   A cap of one on a type without any running row refuses its due job while a job of another, uncapped type is running,
   although every limit is documented per type.
   */
  lemma CapBlocksAnotherType(a: string, b: string, now: int)
    requires a != b && now >= 0
    ensures var before := Run(EMPTY, [Insert("x", Simple(a)), Insert("y", Simple(b)), SetConcurrency(a, 1), Claim("y", now, "n", 0, 1)]);
            && RunningOf(before.db, a) == {} && AllowedByOwnType(before.db, "x", now)
            && Step(before, Claim("x", now, "n", 0, 1)) == before
  {
    hide Claimable;
    var e0, e1, e2, e3 := Insert("x", Simple(a)), Insert("y", Simple(b)), SetConcurrency(a, 1), Claim("y", now, "n", 0, 1);
    RunThree(EMPTY, e0, e1, e2);
    RunOneMore(EMPTY, [e0, e1, e2], e3);
    assert [e0, e1, e2] + [e3] == [e0, e1, e2, e3];
    TwoJobsInserted(a, b);
    var s := Run(EMPTY, [e0, e1, e2]);
    assert s.db == TwoJobs(a, b).(caps := map[a := 1]);
    NothingElseLimits(s.db, "y", now);
    var before := Step(s, e3);
    assert RunningOf(before.db, a) == {};
    assert CountedRunning(before.db) == {"y"};
    Refused(before.db, "x", now);
  }

  lemma NothingElseLimits(db: Db, id: Id, now: int)
    requires Ready(db, id, now) && db.jobs[id].jobType !in db.caps
    requires db.jobs[id].jobType in db.rates ==> CountedStarts(db, now) == {} && db.rates[db.jobs[id].jobType].capacity > 0
    ensures Claimable(db, id, now)
  {
  }

  lemma Refused(db: Db, id: Id, now: int)
    requires id in db.jobs
    requires var t := db.jobs[id].jobType;
             (t in db.caps && db.caps[t] <= |CountedRunning(db)|) || (t in db.rates && db.rates[t].capacity <= |CountedStarts(db, now)|)
    ensures !Claimable(db, id, now)
  {
  }

  /** A rate limit of one refuses a type that has not started anything, because another limited type just did. */
  lemma RateBlocksAnotherType(a: string, b: string, now: int, period: int)
    requires a != b && now >= 0 && period >= 1_000_000
    ensures var before := Run(EMPTY, [Insert("x", Simple(a)), Insert("y", Simple(b)), SetRateLimit(a, 1, period),
                                      SetRateLimit(b, 1, period), Claim("y", now, "n", 0, 1)]);
            && (forall from, to :: StartedIn(before.db, a, from, to) == {}) && AllowedByOwnType(before.db, "x", now)
            && Step(before, Claim("x", now, "n", 0, 1)) == before
  {
    hide Claimable;
    var e0, e1, e2, e3 := Insert("x", Simple(a)), Insert("y", Simple(b)), SetRateLimit(a, 1, period), SetRateLimit(b, 1, period);
    var e4 := Claim("y", now, "n", 0, 1);
    RunThree(EMPTY, e0, e1, e2);
    RunOneMore(EMPTY, [e0, e1, e2], e3);
    RunOneMore(EMPTY, [e0, e1, e2, e3], e4);
    assert [e0, e1, e2] + [e3] == [e0, e1, e2, e3] && [e0, e1, e2, e3] + [e4] == [e0, e1, e2, e3, e4];
    TwoJobsInserted(a, b);
    var s := Run(EMPTY, [e0, e1, e2, e3]);
    var rate := Rate(1, period / 1_000_000);
    assert s.db == TwoJobs(a, b).(rates := map[a := rate, b := rate]);
    assert CountedStarts(s.db, now) == {};
    NothingElseLimits(s.db, "y", now);
    var before := Step(s, e4);
    assert StartedAfter(before.db, a, now - rate.periodMs) == {};
    assert CountedStarts(before.db, now) == {"y"};
    Refused(before.db, "x", now);
  }

  /** A job that succeeded can be made pending again by the failure of a worker it was swept from. */
  lemma StaleFailureRevivesAJob(s: System, id: Id, now: int)
    requires Alone(s, id, now) && s.db.jobs[id].timeoutMs > 0 && s.db.caps == map[] && s.db.rates == map[]
    requires s.db.jobs[id].uniqueKey.None? && s.db.jobs[id].attempts + 1 < s.db.jobs[id].maxAttempts
    ensures var later := now + s.db.jobs[id].timeoutMs + 1;
            var n := Run(s, [FreshClaim(s.db, id, now, "a", 0), Sweep(later), FreshClaim(s.db, id, later, "b", 1)]);
            var done := Step(n, Finish(s.next + 1, Done, later));
            var revived := Step(done, Finish(s.next, Failed("error", later), later));
            && id in done.db.jobs && done.db.jobs[id].status == Succeeded
            && id in revived.db.jobs && revived.db.jobs[id].status == Pending
  {
    hide Claimable;
    var later := now + s.db.jobs[id].timeoutMs + 1;
    var a, b, c := FreshClaim(s.db, id, now, "a", 0), Sweep(later), FreshClaim(s.db, id, later, "b", 1);
    RunThree(s, a, b, c);
    WaitingIsClaimable(s.db, id, now);
    var s2 := Step(Step(s, a), b);
    assert Waiting(s2.db, id, later);
    WaitingIsClaimable(s2.db, id, later);
    var s3 := Step(s2, c);
    var f := Flight(id, s.db.jobs[id].attempts + 1, s.db.jobs[id].maxAttempts);
    assert s3.flights[s.next] == f && s3.flights[s.next + 1].id == id;
    var s4 := Step(s3, Finish(s.next + 1, Done, later));
    assert s4.flights[s.next] == f;
  }

  /** n failed attempts, by workers that read the row as it is or, stale, as it was before any of them. */
  function Attempts(id: Id, now: int, max: int, first: nat, stale: bool, n: nat): seq<Event> {
    if n == 0 then []
    else
      Attempts(id, now, max, first, stale, n - 1)
      + [Claim(id, now, "a", if stale then 0 else n - 1, max)] + [Finish(first + n - 1, Failed("error", now), now)]
  }

  /** A job that waits alone for its next attempt, with nothing to limit it. */
  predicate Retriable(s: System, id: Id, now: int, max: int, attempts: int, k: nat) {
    && Alone(s, id, now) && s.next == k && s.db.caps == map[] && s.db.rates == map[]
    && s.db.jobs[id].maxAttempts == max && s.db.jobs[id].uniqueKey.None? && s.db.jobs[id].attempts == attempts
  }

  lemma {:induction false} AttemptsAreRetried(s: System, id: Id, now: int, max: int, stale: bool, n: nat)
    requires Retriable(s, id, now, max, 0, s.next) && if stale then max >= 2 else n < max
    ensures var events := Attempts(id, now, max, s.next, stale, n);
            && Retriable(Run(s, events), id, now, max, n, s.next + n)
            && TallyOf(s, events, id).claims == n && TallyOf(s, events, id).sweeps == 0 && TallyOf(s, events, id).releases == 0
            && AllPossible(events) && (!stale ==> AllFresh(s, events, id))
  {
    hide Run, TallyOf, Retriable, Fresh;
    if n == 0 {
      EmptyRun(s, id);
    } else {
      AttemptsAreRetried(s, id, now, max, stale, n - 1);
      OneAttempt(s, Attempts(id, now, max, s.next, stale, n - 1), id, now, max, n - 1, s.next + n - 1, if stale then 0 else n - 1);
    }
  }

  lemma OneAttempt(s: System, before: seq<Event>, id: Id, now: int, max: int, n: nat, k: nat, seen: nat)
    requires Retriable(Run(s, before), id, now, max, n, k) && seen + 1 < max
    ensures var events := before + [Claim(id, now, "a", seen, max)] + [Finish(k, Failed("error", now), now)];
            var y, z := TallyOf(s, before, id), TallyOf(s, events, id);
            && z.claims == y.claims + 1 && z.sweeps == y.sweeps && z.releases == y.releases
            && Retriable(Run(s, events), id, now, max, n + 1, k + 1)
            && (seen == n && AllFresh(s, before, id) ==> AllFresh(s, events, id))
  {
    hide TallyOf, Run, AllFresh;
    var a, b := Claim(id, now, "a", seen, max), Finish(k, Failed("error", now), now);
    var m := Run(s, before);
    RunOneMore(s, before, a);
    RunOneMore(s, before + [a], b);
    TallyOneMore(s, before, a, id);
    TallyOneMore(s, before + [a], b, id);
    if seen == n { FreshOneMore(s, before, a, id); }
    FreshOneMore(s, before + [a], b, id);
    var m1 := Step(m, a);
    assert m1.flights == map[k := Flight(id, seen + 1, max)];
    var m2 := Step(m1, b);
    assert m2.flights == map[];
  }

  lemma FreshOneMore(s: System, events: seq<Event>, e: Event, id: Id)
    requires Fresh(Run(s, events), e, id)
    ensures AllFresh(s, events, id) ==> AllFresh(s, events + [e], id)
  {
    hide Fresh, Run;
    forall n | 0 <= n < |events| ensures (events + [e])[..n] == events[..n] && (events + [e])[n] == events[n] {
    }
    assert (events + [e])[..|events|] == events;
  }

  /**
   The bound on attempts needs the copy to be fresh: when every worker's replica lags behind all claims, a job with
   max_attempts of at least two is retried for ever.
   */
  lemma StaleCopiesRetryForEver(s: System, id: Id, now: int, max: int, n: nat)
    requires Retriable(s, id, now, max, 0, s.next) && max >= 2
    ensures var events := Attempts(id, now, max, s.next, true, n);
            var y := TallyOf(s, events, id);
            AllPossible(events) && y.claims == n && y.sweeps == 0 && y.releases == 0
  {
    AttemptsAreRetried(s, id, now, max, true, n);
  }

  /** With fresh copies the bound is reached: a job that always fails is claimed max_attempts times. */
  lemma AttemptsReachTheBound(s: System, id: Id, now: int, max: int)
    requires Retriable(s, id, now, max, 0, s.next) && max >= 1
    ensures var events := Attempts(id, now, max, s.next, false, max - 1) + [Claim(id, now, "a", max - 1, max)];
            var y := TallyOf(s, events, id);
            && AllPossible(events) && AllFresh(s, events, id)
            && y.claims == Max(1, max) && y.sweeps == 0 && y.releases == 0
  {
    hide Run, TallyOf, AllFresh;
    var before, e := Attempts(id, now, max, s.next, false, max - 1), Claim(id, now, "a", max - 1, max);
    AttemptsAreRetried(s, id, now, max, false, max - 1);
    TallyOneMore(s, before, e, id);
    FreshOneMore(s, before, e, id);
  }

  lemma TallyOneMore(s: System, events: seq<Event>, e: Event, id: Id)
    ensures TallyOf(s, events + [e], id) == Counted(Run(s, events), e, id, TallyOf(s, events, id))
  {
    assert (events + [e])[..|events|] == events;
  }
}
