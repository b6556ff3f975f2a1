/** What every statement keeps, whatever the interleaving, stale finalises included. */
module JobInvariants {
  import opened Options
  import opened JobQueue

  /** The columns of a row agree with its status. */
  predicate RowOk(r: Row) {
    && (r.status == Running ==> r.claimedAt.Some? && r.claimedBy.Some? && r.startedAt.Some?)
    && (r.status == Pending ==> r.claimedAt.None? && r.claimedBy.None? && r.startedAt.None?)
    && (!Live(r) ==> r.finishedAt.Some?)
    && r.attempts >= 0
  }

  /** At most one pending or running row has a unique key. */
  ghost predicate KeysUnique(jobs: map<Id, Row>) {
    forall a, b | a in jobs && b in jobs && Live(jobs[a]) && Live(jobs[b]) && jobs[a].uniqueKey.Some? ::
      jobs[a].uniqueKey == jobs[b].uniqueKey ==> a == b
  }

  ghost predicate TableOk(jobs: map<Id, Row>) {
    (forall id | id in jobs :: RowOk(jobs[id])) && KeysUnique(jobs)
  }

  ghost predicate Inv(s: System) {
    TableOk(s.db.jobs) && forall t | t in s.flights :: t < s.next
  }

  lemma UpdateKeepsInv(s: System, id: Id, row: Row)
    requires Inv(s) && RowOk(row)
    ensures Inv(s.(db := Updated(s.db, id, row)))
  {
  }

  lemma FinishKeepsInv(s: System, f: Flight, outcome: Outcome, now: int)
    requires Inv(s)
    ensures Inv(s.(db := Finished(s.db, f, outcome, now)))
  {
    if f.id in s.db.jobs { UpdateKeepsInv(s, f.id, FinishedRow(f, outcome, now, s.db.jobs[f.id])); }
  }

  /** Every step of every worker, sweeper, reaper and enqueuer keeps the queue's invariant. */
  lemma StepKeepsInv(s: System, e: Event)
    requires Inv(s) && Possible(e)
    ensures Inv(Step(s, e))
  {
    hide Updated, Finished;
    if e.Finish? && e.flight in s.flights { FinishKeepsInv(s, s.flights[e.flight], e.outcome, e.now); }
  }

  lemma {:induction false} RunKeepsInv(s: System, events: seq<Event>)
    requires Inv(s) && AllPossible(events)
    ensures Inv(Run(s, events))
  {
    hide Inv, Step;
    if events != [] {
      var n := |events| - 1;
      RunKeepsInv(s, events[..n]);
      assert events[n] in events;
      StepKeepsInv(Run(s, events[..n]), events[n]);
    }
  }

  /** The reaper removes exactly the rows that ended before the cutoff, and touches no other. */
  lemma ReapTakesExpiredRows(s: System, cutoff: int, id: Id)
    requires Inv(s)
    ensures var after := Step(s, Reap(cutoff)).db.jobs;
            && (id in after ==> id in s.db.jobs && after[id] == s.db.jobs[id])
            && (id in s.db.jobs && id !in after <==>
                id in s.db.jobs && s.db.jobs[id].status in {Succeeded, Dead} && s.db.jobs[id].finishedAt.value < cutoff)
  {
    if id in s.db.jobs { assert RowOk(s.db.jobs[id]); }
  }

  /** The event finalises a run of this job. */
  predicate FinishesRunOf(s: System, e: Event, id: Id) {
    e.Finish? && e.flight in s.flights && s.flights[e.flight].id == id
  }

  /**
   The life of a row: which step may change its status, its attempts and its run_at, and how; what it was inserted
   with never changes.
   */
  lemma RowsChangeByTheirSteps(s: System, e: Event, id: Id)
    requires Inv(s) && id in s.db.jobs && id in Step(s, e).db.jobs
    ensures var a, b := s.db.jobs[id], Step(s, e).db.jobs[id];
            && (b.jobType, b.priority, b.maxAttempts, b.enqueuedAt, b.uniqueKey, b.timeoutMs)
               == (a.jobType, a.priority, a.maxAttempts, a.enqueuedAt, a.uniqueKey, a.timeoutMs)
            && (b.status == Running != a.status ==>
                e.Claim? && e.id == id && a.status == Pending && a.runAt <= e.now
                && b.claimedAt == b.startedAt == Some(e.now) && b.claimedBy == Some(e.node))
            && (b.status == Succeeded != a.status ==>
                FinishesRunOf(s, e, id) && e.outcome.Done? && b.finishedAt == Some(e.now) && b.lastError.None?)
            && (b.status == Dead != a.status ==>
                FinishesRunOf(s, e, id) && e.outcome.Failed? && s.flights[e.flight].attempts >= s.flights[e.flight].maxAttempts
                && b.finishedAt == Some(e.now) && b.lastError == Some(e.outcome.error))
            && (b.status == Pending != a.status ==>
                if e.Sweep? then a.status == Running && a.timeoutMs > 0 && a.claimedAt.value + a.timeoutMs < e.now
                else FinishesRunOf(s, e, id) && !e.outcome.Done?)
            && (b.attempts > a.attempts ==> b.status == Running != a.status && b.attempts == a.attempts + 1)
            && (b.attempts < a.attempts ==>
                FinishesRunOf(s, e, id) && e.outcome.NoHandler? && b.attempts == a.attempts - 1)
            && (b.runAt != a.runAt ==> FinishesRunOf(s, e, id) && e.outcome.Failed? && b.runAt == e.outcome.nextRun)
  {
    hide KeysUnique, UpdateWorks;
    assert RowOk(s.db.jobs[id]);
  }

  /**
   A finished row becomes live again if and only if a run of it, swept before, ends for want of a handler or with a
   failure that its worker would still retry, and no other live row has taken the unique key.
   */
  lemma FinishedRowsRevive(s: System, e: Event, id: Id)
    requires Inv(s) && Possible(e) && id in s.db.jobs && !Live(s.db.jobs[id]) && id in Step(s, e).db.jobs
    ensures Live(Step(s, e).db.jobs[id]) <==>
            && FinishesRunOf(s, e, id)
            && (e.outcome.NoHandler? || (e.outcome.Failed? && s.flights[e.flight].attempts < s.flights[e.flight].maxAttempts))
            && !KeyTaken(s.db.jobs, id, s.db.jobs[id].uniqueKey)
  {
    hide KeysUnique, KeyTaken;
  }
}
