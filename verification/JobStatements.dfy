/**
 What each statement of the queue writes, column by column (jobs/worker.go, jobs/sweeper.go, jobs/enqueue.go), and what
 follows for waiting jobs: none is claimed before its run_at.
 */
module JobStatements {
  import opened Options
  import opened JobQueue
  import opened JobInvariants

  /** The columns that only the INSERT writes. */
  predicate SameIdentity(a: Row, b: Row) {
    && b.jobType == a.jobType && b.priority == a.priority && b.maxAttempts == a.maxAttempts
    && b.enqueuedAt == a.enqueuedAt && b.uniqueKey == a.uniqueKey && b.timeoutMs == a.timeoutMs
  }

  /** Nobody has claimed the row. */
  predicate Free(r: Row) {
    r.status == Pending && r.claimedAt == None && r.claimedBy == None && r.startedAt == None
  }

  predicate OthersStay(before: map<Id, Row>, after: map<Id, Row>, id: Id) {
    after.Keys == before.Keys && forall x | x in before && x != id :: after[x] == before[x]
  }

  /** No other pending or running row has the key. */
  predicate KeyIsFree(jobs: map<Id, Row>, id: Id, key: Option<string>) {
    key == None
    || forall x | x in jobs && x != id :: jobs[x].uniqueKey != key || (jobs[x].status != Pending && jobs[x].status != Running)
  }

  // ----------------------------------------------------------------- inserts

  /** An INSERT takes effect exactly when neither its id nor its key is taken, and adds a row that nobody has claimed yet. */
  lemma InsertWrites(s: System, id: Id, row: Row)
    requires Possible(Insert(id, row))
    ensures var after := Step(s, Insert(id, row)).db.jobs;
            if id in s.db.jobs || !KeyIsFree(s.db.jobs, id, row.uniqueKey) then after == s.db.jobs
            else
              && after.Keys == s.db.jobs.Keys + {id} && (forall x | x in s.db.jobs :: after[x] == s.db.jobs[x])
              && after[id] == row && Free(row) && row.attempts == 0 && row.finishedAt == None && row.lastError == None
  {
  }

  // ------------------------------------------------------------------ claims

  /**
   A claim takes effect exactly when the job is pending and due, fewer rows are running than its type's cap, if it has
   one, and fewer rows of limited types started less than their type's period ago than its type's capacity, if limited.
   */
  lemma ClaimTakesEffect(db: Db, id: Id, now: int)
    ensures Claimable(db, id, now) <==>
            && id in db.jobs && db.jobs[id].status == Pending && db.jobs[id].runAt <= now
            && (db.jobs[id].jobType in db.caps ==>
                |set x | x in db.jobs && db.jobs[x].status == Running| < db.caps[db.jobs[id].jobType])
            && (db.jobs[id].jobType in db.rates ==>
                |set x | x in db.jobs && RecentStart(db, db.jobs[x], now)| < db.rates[db.jobs[id].jobType].capacity)
  {
    assert forall x | x in db.jobs :: StartCounts(db, now, db.jobs[x]) <==> RecentStart(db, db.jobs[x], now);
    assert CountedStarts(db, now) == set x | x in db.jobs && RecentStart(db, db.jobs[x], now);
  }

  predicate RecentStart(db: Db, r: Row, now: int) {
    r.jobType in db.rates && r.startedAt.Some? && now - r.startedAt.value < db.rates[r.jobType].periodMs
  }

  /** It marks the row with worker and time, counts one attempt more, and starts a run with the worker's copy. */
  lemma ClaimWrites(s: System, e: Event)
    requires e.Claim? && Claimable(s.db, e.id, e.now)
    ensures var n := Step(s, e);
            && e.id in s.db.jobs && OthersStay(s.db.jobs, n.db.jobs, e.id)
            && var a, b := s.db.jobs[e.id], n.db.jobs[e.id];
               && SameIdentity(a, b) && b.status == Running && b.attempts == a.attempts + 1 && b.runAt == a.runAt
               && b.claimedAt == Some(e.now) && b.startedAt == Some(e.now) && b.claimedBy == Some(e.node)
               && b.finishedAt == a.finishedAt && b.lastError == a.lastError
    ensures Step(s, e).flights == s.flights[s.next := Flight(e.id, e.seenAttempts + 1, e.seenMax)]
  {
    hide CapAllows, RateAllows;
  }

  // --------------------------------------------------------------- finalising

  /**
   A run that ends in success closes its row; one that failed for the last time, by its worker's count, closes it too,
   with the error. Neither touches attempts, run_at or the marks of the claim.
   */
  lemma FinalOutcomeWrites(db: Db, f: Flight, outcome: Outcome, now: int)
    requires f.id in db.jobs && (outcome.Done? || (outcome.Failed? && f.attempts >= f.maxAttempts))
    ensures var after := Finished(db, f, outcome, now).jobs;
            && OthersStay(db.jobs, after, f.id)
            && var a, b := db.jobs[f.id], after[f.id];
               && SameIdentity(a, b) && b.attempts == a.attempts && b.runAt == a.runAt
               && (b.claimedAt, b.claimedBy, b.startedAt) == (a.claimedAt, a.claimedBy, a.startedAt)
               && b.finishedAt == Some(now)
               && if outcome.Done? then b.status == Succeeded && b.lastError == None
                  else b.status == Dead && b.lastError == Some(outcome.error)
  {
  }

  /**
   A run that failed with attempts to spare makes its job wait until the end of its backoff; one without a handler gives
   it back as it was, with one attempt less. Both leave the row alone when another live row has its key.
   */
  lemma OpenOutcomeWrites(db: Db, f: Flight, outcome: Outcome, now: int)
    requires f.id in db.jobs && (outcome.NoHandler? || (outcome.Failed? && f.attempts < f.maxAttempts))
    ensures var after := Finished(db, f, outcome, now).jobs;
            if !KeyIsFree(db.jobs, f.id, db.jobs[f.id].uniqueKey) then after == db.jobs
            else
              && OthersStay(db.jobs, after, f.id)
              && var a, b := db.jobs[f.id], after[f.id];
                 && SameIdentity(a, b) && Free(b) && b.finishedAt == a.finishedAt
                 && if outcome.NoHandler?
                    then
                      && b.runAt == a.runAt && b.lastError == a.lastError
                      && b.attempts == if a.attempts > 0 then a.attempts - 1 else 0
                    else b.runAt == outcome.nextRun && b.lastError == Some(outcome.error) && b.attempts == a.attempts
  {
    assert KeyTaken(db.jobs, f.id, db.jobs[f.id].uniqueKey) <==> !KeyIsFree(db.jobs, f.id, db.jobs[f.id].uniqueKey);
  }

  /** A finalise ends the run, and writes nothing when the row is gone. */
  lemma FinishEndsRun(s: System, k: nat, outcome: Outcome, now: int)
    requires k in s.flights
    ensures var n := Step(s, Finish(k, outcome, now));
            && n.flights == s.flights - {k} && n.db == Finished(s.db, s.flights[k], outcome, now)
            && (s.flights[k].id !in s.db.jobs ==> n.db == s.db)
  {
  }

  // ----------------------------------------------------------------- sweeping

  /** The sweeper gives back exactly the running jobs whose worker claimed them more than their timeout ago. */
  lemma SweepWrites(s: System, now: int, id: Id)
    requires id in s.db.jobs
    ensures var after := Step(s, Sweep(now)).db.jobs;
            && after.Keys == s.db.jobs.Keys
            && var a, b := s.db.jobs[id], after[id];
               if a.status == Running && a.timeoutMs > 0 && a.claimedAt.Some? && now - a.claimedAt.value > a.timeoutMs
               then
                 && SameIdentity(a, b) && Free(b) && b.attempts == a.attempts && b.runAt == a.runAt && b.finishedAt == a.finishedAt
                 && b.lastError == Some((if a.lastError.Some? then a.lastError.value else "") + " (orphaned: reclaimed by sweeper)")
               else b == a
  {
  }

  // ------------------------------------------------------------------ waiting

  /** The event may not touch a pending row that is due at `until`: a claim before that, or no finalise of a run of it. */
  predicate TooEarly(s: System, e: Event, id: Id, until: int) {
    && (e.Claim? && e.id == id ==> e.now < until)
    && !FinishesRunOf(s, e, id)
  }

  lemma WaitingRowStays(s: System, e: Event, id: Id, until: int)
    requires id in s.db.jobs && s.db.jobs[id].status == Pending && s.db.jobs[id].runAt == until && TooEarly(s, e, id, until)
    ensures id in Step(s, e).db.jobs && Step(s, e).db.jobs[id] == s.db.jobs[id]
  {
    hide KeyTaken, CapAllows, RateAllows;
  }

  ghost predicate AllTooEarly(s: System, events: seq<Event>, id: Id, until: int) {
    forall n | 0 <= n < |events| :: TooEarly(Run(s, events[..n]), events[n], id, until)
  }

  /**
   A pending job is not claimed before its run_at, over any run: until then its row stays as it is, whoever tries and
   whatever else happens, unless a run of it that was swept ends after all.
   */
  lemma {:induction false} WaitingJobWaits(s: System, events: seq<Event>, id: Id, until: int)
    requires id in s.db.jobs && s.db.jobs[id].status == Pending && s.db.jobs[id].runAt == until
    requires AllTooEarly(s, events, id, until)
    ensures id in Run(s, events).db.jobs && Run(s, events).db.jobs[id] == s.db.jobs[id]
  {
    hide Step, TooEarly;
    if events != [] {
      var n := |events| - 1;
      forall i | 0 <= i < n ensures TooEarly(Run(s, events[..n][..i]), events[..n][i], id, until) {
        assert events[..n][..i] == events[..i];
      }
      WaitingJobWaits(s, events[..n], id, until);
      assert TooEarly(Run(s, events[..n]), events[n], id, until);
      WaitingRowStays(Run(s, events[..n]), events[n], id, until);
    }
  }

  /** And so after a retry: no claim of the job takes effect before its backoff is over. */
  lemma BackoffIsKept(s: System, k: nat, error: string, nextRun: int, now: int, events: seq<Event>, claim: Event)
    requires k in s.flights && s.flights[k].attempts < s.flights[k].maxAttempts && s.flights[k].id in s.db.jobs
    requires KeyIsFree(s.db.jobs, s.flights[k].id, s.db.jobs[s.flights[k].id].uniqueKey)
    requires AllTooEarly(Step(s, Finish(k, Failed(error, nextRun), now)), events, s.flights[k].id, nextRun)
    requires claim.Claim? && claim.id == s.flights[k].id && claim.now < nextRun
    ensures var n := Run(Step(s, Finish(k, Failed(error, nextRun), now)), events); Step(n, claim) == n
  {
    hide Run, AllTooEarly, Finished, KeyIsFree;
    var id, n := s.flights[k].id, Step(s, Finish(k, Failed(error, nextRun), now));
    FinishEndsRun(s, k, Failed(error, nextRun), now);
    OpenOutcomeWrites(s.db, s.flights[k], Failed(error, nextRun), now);
    WaitingJobWaits(n, events, id, nextRun);
    ClaimTakesEffect(Run(n, events).db, id, claim.now);
  }
}
