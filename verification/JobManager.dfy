/**
 A node's job manager (jobs/worker.go, jobs/sweeper.go, jobs/reaper.go, jobs/enqueue.go): its methods run statements on
 the replicated tables and keep counters. Between two methods, other nodes may run theirs.
 */
module JobManager {
  import opened Options
  import opened JobQueue
  import opened JobInvariants
  import opened JobLimits

  /** The replicated database. */
  class Store {
    var db: Db

    constructor ()
      ensures db == Db(map[], map[], map[])
    {
      db := Db(map[], map[], map[]);
    }
  }

  datatype Enqueued = Queued(id: Id) | Existing(id: Id) | DuplicateUnique | InsertError

  /** A live row with the key, as the SELECT of Enqueue looks for it. */
  predicate HoldsKey(jobs: map<Id, Row>, id: Id, key: Option<string>) {
    key.Some? && id in jobs && Live(jobs[id]) && jobs[id].uniqueKey == key
  }

  /** The job is waiting or running, and has the key. */
  predicate InQueue(jobs: map<Id, Row>, id: Id, key: string) {
    id in jobs && jobs[id].uniqueKey == Some(key) && (jobs[id].status == Pending || jobs[id].status == Running)
  }

  /** The WHERE clause of findCandidate. */
  function Candidates(jobs: map<Id, Row>, types: set<string>, now: int): set<Id> {
    set id | id in jobs && jobs[id].status == Pending && jobs[id].runAt <= now && jobs[id].jobType in types
  }

  /** ORDER BY priority DESC, run_at ASC. */
  predicate NoLaterThan(a: Row, b: Row) {
    a.priority > b.priority || (a.priority == b.priority && a.runAt <= b.runAt)
  }

  predicate IsNext(jobs: map<Id, Row>, ids: set<Id>, id: Id) {
    id in ids && id in jobs && forall other | other in ids && other in jobs :: NoLaterThan(jobs[id], jobs[other])
  }

  lemma {:induction false} SomeIsNext(jobs: map<Id, Row>, ids: set<Id>) returns (id: Id)
    requires ids != {} && ids <= jobs.Keys
    ensures IsNext(jobs, ids, id)
  {
    var x :| x in ids;
    id := x;
    if ids != {x} {
      var y := SomeIsNext(jobs, ids - {x});
      id := if NoLaterThan(jobs[x], jobs[y]) then x else y;
    }
  }

  lemma SweepTakesOrphans(db: Db, now: int)
    ensures var after := Swept(db, now);
            && (set id | id in db.jobs && Orphaned(db.jobs[id], now)) == (set id | id in db.jobs && after.jobs[id] != db.jobs[id])
            && (forall id | id in after.jobs :: !Orphaned(after.jobs[id], now))
  {
  }

  lemma SplitSize(whole: map<Id, Row>, part: map<Id, Row>, gone: set<Id>)
    requires whole.Keys == part.Keys + gone && part.Keys !! gone
    ensures |whole| == |part| + |gone|
  {
    assert |whole| == |whole.Keys| && |part| == |part.Keys|;
  }

  lemma ReapTakesRows(db: Db, cutoff: int)
    ensures var expired := set id | id in db.jobs && Expired(db.jobs[id], cutoff);
            db.jobs - expired == Reaped(db, cutoff).jobs && |db.jobs| == |Reaped(db, cutoff).jobs| + |expired|
  {
    hide Expired;
    var expired := set id | id in db.jobs && Expired(db.jobs[id], cutoff);
    var after := Reaped(db, cutoff).jobs;
    assert db.jobs - expired == after;
    SplitSize(db.jobs, after, expired);
  }

  class Manager {
    const store: Store
    const node: string
    var executed: int
    var succeeded: int
    var failed: int
    var retried: int
    var dead: int
    var reaped: int
    ghost var atWork: multiset<Flight>
    ghost var released: int

    /** Every run is accounted for, and every failure was a retry or a death. */
    ghost predicate Valid()
      reads this, store
    {
      && TableOk(store.db.jobs)
      && executed == succeeded + failed + released + |atWork|
      && failed == retried + dead
    }

    constructor (store: Store, node: string)
      requires TableOk(store.db.jobs)
      ensures Valid() && this.store == store && this.node == node && atWork == multiset{}
    {
      this.store, this.node := store, node;
      executed, succeeded, failed, retried, dead, reaped := 0, 0, 0, 0, 0, 0;
      atWork, released := multiset{}, 0;
    }

    /**
     Enqueue. `replica` and `later` are the local copies of the table that the two look-ups see; an empty key is none.
     A second live row with the key is never made; the id returned otherwise is one that a copy shows to hold it.
     */
    method Enqueue(id: Id, jobType: string, priority: int, maxAttempts: int, runAt: int, uniqueKey: string, timeoutMs: int,
                   now: int, replica: map<Id, Row>, later: map<Id, Row>)
      returns (r: Enqueued)
      requires Valid()
      modifies store
      ensures Valid()
      ensures var key := if uniqueKey == "" then None else Some(uniqueKey);
              var row := NewRow(jobType, priority, maxAttempts, now, if runAt < now then now else runAt, key, timeoutMs);
              && (r.Queued? <==> store.db != old(store.db))
              && (r.Queued? ==> r.id == id && id !in old(store.db).jobs && store.db == Inserted(old(store.db), id, row))
              && (r.Queued? ==>
                  && id in store.db.jobs
                  && var q := store.db.jobs[id];
                     && q.enqueuedAt == now && q.runAt >= now && q.runAt >= runAt && (q.runAt == now || q.runAt == runAt)
                     && q.jobType == jobType && q.priority == priority && q.maxAttempts == maxAttempts && q.timeoutMs == timeoutMs
                     && q.status == Pending && q.attempts == 0 && (q.uniqueKey.None? <==> uniqueKey == "")
                     && (q.uniqueKey.Some? ==> q.uniqueKey.value == uniqueKey))
              && (r.Existing? ==> HoldsKey(replica, r.id, key) || HoldsKey(later, r.id, key))
              && (r.Existing? ==> uniqueKey != "" && (InQueue(replica, r.id, uniqueKey) || InQueue(later, r.id, uniqueKey)))
              && (r.DuplicateUnique? || r.InsertError? ==> InsertRefused(old(store.db), id, key))
              && (replica == later == old(store.db).jobs && id !in replica ==>
                  (r.Existing? <==> exists x :: HoldsKey(replica, x, key)) && !r.DuplicateUnique? && !r.InsertError?)
    {
      var key := if uniqueKey == "" then None else Some(uniqueKey);
      if x :| x in replica && HoldsKey(replica, x, key) { return Existing(x); }
      var runAtMs := if runAt < now then now else runAt;
      var row := NewRow(jobType, priority, maxAttempts, now, runAtMs, key, timeoutMs);
      if InsertRefused(store.db, id, key) {
        if key.None? { return InsertError; }
        if x :| x in later && HoldsKey(later, x, key) { return Existing(x); }
        return DuplicateUnique;
      }
      store.db := store.db.(jobs := store.db.jobs[id := row]);
      return Queued(id);
    }

    /** findCandidate: the first due job, by priority and then age, of a type this node handles. */
    method FindCandidate(types: set<string>, now: int, replica: map<Id, Row>) returns (found: Option<Id>)
      ensures found.None? <==> Candidates(replica, types, now) == {}
      ensures found.Some? ==> IsNext(replica, Candidates(replica, types, now), found.value)
      ensures found.Some? ==>
                && found.value in replica
                && var c := replica[found.value];
                   && c.status == Pending && c.runAt <= now && c.jobType in types
                   && forall x | x in replica && replica[x].status == Pending && replica[x].runAt <= now && replica[x].jobType in types ::
                        replica[x].priority < c.priority || (replica[x].priority == c.priority && replica[x].runAt >= c.runAt)
      ensures found.None? ==>
                forall x | x in replica && replica[x].jobType in types :: replica[x].status != Pending || replica[x].runAt > now
    {
      var ids := Candidates(replica, types, now);
      if ids == {} {
        assert forall x | x in replica :: x !in Candidates(replica, types, now);
        return None;
      }
      ghost var next := SomeIsNext(replica, ids);
      var id :| id in ids && IsNext(replica, ids, id);
      return Some(id);
    }

    /** The claim of tryClaimAndRun: `seen` is the row as findCandidate read it. A claim that takes effect starts a run. */
    method TryClaim(id: Id, seenAttempts: int, seenMax: int, now: int) returns (run: Option<Flight>)
      requires Valid()
      modifies store, this
      ensures Valid() && store.db == Claimed(old(store.db), id, now, node)
      ensures run == if Claimable(old(store.db), id, now) then Some(Flight(id, seenAttempts + 1, seenMax)) else None
      ensures atWork == old(atWork) + if run.Some? then multiset{run.value} else multiset{}
      ensures executed == old(executed) + if run.Some? then 1 else 0
      ensures (succeeded, failed, retried, dead, reaped) == old((succeeded, failed, retried, dead, reaped))
    {
      ghost var before := System(store.db, map[], 0);
      StepKeepsInv(before, Claim(id, now, node, seenAttempts, seenMax));
      if !Claimable(store.db, id, now) { return None; }
      var row := store.db.jobs[id];
      store.db := store.db.(jobs := store.db.jobs[id := ClaimedRow(row, now, node)]);
      var f := Flight(id, seenAttempts + 1, seenMax);
      executed := executed + 1;
      atWork := atWork + multiset{f};
      return Some(f);
    }

    /** An UPDATE of one row by id, as SQLite runs it. */
    method UpdateRow(id: Id, row: Row)
      requires id in store.db.jobs
      modifies store
      ensures store.db == Updated(old(store.db), id, row)
    {
      if Live(row) && KeyTaken(store.db.jobs, id, row.uniqueKey) { return; }
      store.db := store.db.(jobs := store.db.jobs[id := row]);
    }

    /** finalise: the run's outcome is written to the row if it still exists, whatever has become of it since. */
    method Finalise(f: Flight, outcome: Outcome, now: int)
      requires Valid() && f in atWork
      modifies store, this
      ensures Valid() && store.db == Finished(old(store.db), f, outcome, now)
      ensures atWork == old(atWork) - multiset{f}
      ensures executed == old(executed) && reaped == old(reaped)
      ensures succeeded == old(succeeded) + if outcome.Done? then 1 else 0
      ensures failed == old(failed) + if outcome.Failed? then 1 else 0
      ensures dead == old(dead) + if outcome.Failed? && f.attempts >= f.maxAttempts then 1 else 0
    {
      FinishKeepsInv(System(store.db, map[], 0), f, outcome, now);
      var present := f.id in store.db.jobs;
      atWork := atWork - multiset{f};
      match outcome {
        case Done =>
          if present { UpdateRow(f.id, SucceededRow(store.db.jobs[f.id], now)); }
          succeeded := succeeded + 1;
        case NoHandler =>
          if present { UpdateRow(f.id, ReleasedRow(store.db.jobs[f.id])); }
          released := released + 1;
        case Failed(error, nextRun) =>
          if f.attempts >= f.maxAttempts {
            if present { UpdateRow(f.id, DeadRow(store.db.jobs[f.id], now, error)); }
            failed, dead := failed + 1, dead + 1;
          } else {
            if present { UpdateRow(f.id, RetriedRow(store.db.jobs[f.id], nextRun, error)); }
            failed, retried := failed + 1, retried + 1;
          }
      }
    }

    /** sweepOnce gives orphaned rows back, and tells how many. */
    method SweepOnce(now: int) returns (reclaimed: int)
      requires Valid()
      modifies store
      ensures Valid() && store.db == Swept(old(store.db), now)
      ensures reclaimed == |set id | id in old(store.db).jobs && store.db.jobs[id] != old(store.db).jobs[id]|
      ensures forall id | id in store.db.jobs :: !Orphaned(store.db.jobs[id], now)
    {
      hide TableOk, Orphaned, SweptRow;
      StepKeepsInv(System(store.db, map[], 0), Sweep(now));
      var orphans := set id | id in store.db.jobs && Orphaned(store.db.jobs[id], now);
      SweepTakesOrphans(store.db, now);
      store.db := store.db.(jobs := map id | id in store.db.jobs :: SweptRow(store.db.jobs[id], now));
      return |orphans|;
    }

    /** reapOnce: each row deleted is counted, so rows and count together stay the same. */
    method ReapOnce(cutoff: int)
      requires Valid()
      modifies store, this
      ensures Valid() && store.db == Reaped(old(store.db), cutoff)
      ensures |store.db.jobs| + reaped == |old(store.db).jobs| + old(reaped)
      ensures (executed, succeeded, failed, retried, dead, atWork) == old((executed, succeeded, failed, retried, dead, atWork))
    {
      hide TableOk, Expired;
      StepKeepsInv(System(store.db, map[], 0), Reap(cutoff));
      var expired := set id | id in store.db.jobs && Expired(store.db.jobs[id], cutoff);
      ReapTakesRows(store.db, cutoff);
      store.db := store.db.(jobs := store.db.jobs - expired);
      if |expired| > 0 { reaped := reaped + |expired|; }
    }

    /** A cap for one type, or none when it is not positive; nothing else changes. */
    method SetConcurrency(jobType: string, cap: int)
      requires Valid()
      modifies store
      ensures Valid() && store.db == WithCap(old(store.db), jobType, cap)
      ensures store.db.jobs == old(store.db).jobs && store.db.rates == old(store.db).rates
      ensures forall t | t != jobType :: Capped(store.db, t) == Capped(old(store.db), t)
      ensures Capped(store.db, jobType) == if cap > 0 then Some(cap) else None
    {
      if cap <= 0 {
        store.db := store.db.(caps := store.db.caps - {jobType});
      } else {
        store.db := store.db.(caps := store.db.caps[jobType := cap]);
      }
    }

    /**
     A rate limit for one type, or none when count or period is not positive; nothing else changes. A period below a
     millisecond is stored as zero: its windows are empty, and no start of the type up to now counts, for it or others.
     The limit may still refuse claims, on the starts of other types.
     */
    method SetRateLimit(jobType: string, n: int, per: int)
      requires Valid()
      modifies store
      ensures Valid() && store.db == WithRate(old(store.db), jobType, n, per)
      ensures store.db.jobs == old(store.db).jobs && store.db.caps == old(store.db).caps
      ensures forall t | t != jobType :: Limited(store.db, t) == Limited(old(store.db), t)
      ensures n <= 0 || per <= 0 ==> Limited(store.db, jobType).None?
      ensures n > 0 && per > 0 ==>
                var r := Limited(store.db, jobType);
                r.Some? && r.value.capacity == n && 1_000_000 * r.value.periodMs <= per < 1_000_000 * (r.value.periodMs + 1)
      ensures n > 0 && 0 < per < 1_000_000 ==>
                (forall from :: Window(store.db, jobType, from) == {})
                && forall id, now | id in CountedStarts(store.db, now) && store.db.jobs[id].jobType == jobType ::
                     store.db.jobs[id].startedAt.value > now
    {
      hide KeysUnique, RowOk;
      if n <= 0 || per <= 0 {
        store.db := store.db.(rates := store.db.rates - {jobType});
      } else {
        store.db := store.db.(rates := store.db.rates[jobType := Rate(n, per / 1_000_000)]);
      }
    }
  }

  function Capped(db: Db, t: string): Option<int> {
    if t in db.caps then Some(db.caps[t]) else None
  }

  function Limited(db: Db, t: string): Option<Rate> {
    if t in db.rates then Some(db.rates[t]) else None
  }
}
