/**
 The job table as a concurrent state machine. Workers, the sweeper, the reaper and enqueuers interleave as atomic SQL
 statements (jobs/worker.go, jobs/sweeper.go, jobs/reaper.go, jobs/enqueue.go, jobs/schema.go). Times are Unix
 milliseconds; no two clocks need agree. Payloads are left out: the queue never looks at them.
 */
module JobQueue {
  import opened Options

  type Id = string

  datatype Status = Pending | Running | Succeeded | Dead

  datatype Row = Row(jobType: string, status: Status, priority: int, attempts: int, maxAttempts: int, enqueuedAt: int,
                     runAt: int, claimedAt: Option<int>, claimedBy: Option<string>, startedAt: Option<int>,
                     finishedAt: Option<int>, lastError: Option<string>, uniqueKey: Option<string>, timeoutMs: int)

  datatype Rate = Rate(capacity: int, periodMs: int)

  datatype Db = Db(jobs: map<Id, Row>, caps: map<string, int>, rates: map<string, Rate>)

  predicate Live(r: Row) {
    r.status == Pending || r.status == Running
  }

  // --------------------------------------------------------------- statements

  /** Another pending or running row holds the unique key. */
  predicate KeyTaken(jobs: map<Id, Row>, id: Id, key: Option<string>) {
    key.Some? && exists other | other in jobs :: other != id && Live(jobs[other]) && jobs[other].uniqueKey == key
  }

  function NewRow(jobType: string, priority: int, maxAttempts: int, enqueuedAt: int, runAt: int,
                  uniqueKey: Option<string>, timeoutMs: int): Row
  {
    Row(jobType, Pending, priority, 0, maxAttempts, enqueuedAt, runAt, None, None, None, None, None, uniqueKey, timeoutMs)
  }

  /** The INSERT is refused by the primary key or by the unique index. */
  predicate InsertRefused(db: Db, id: Id, key: Option<string>) {
    id in db.jobs || KeyTaken(db.jobs, id, key)
  }

  function Inserted(db: Db, id: Id, row: Row): Db {
    if InsertRefused(db, id, row.uniqueKey) then db else db.(jobs := db.jobs[id := row])
  }

  /** UPDATE ... WHERE id = ?: nothing when the row is gone, an error when the unique index would be violated. */
  predicate UpdateWorks(db: Db, id: Id, row: Row) {
    id in db.jobs && !(Live(row) && KeyTaken(db.jobs, id, row.uniqueKey))
  }

  function Updated(db: Db, id: Id, row: Row): Db {
    if UpdateWorks(db, id, row) then db.(jobs := db.jobs[id := row]) else db
  }

  function RunningOf(db: Db, jobType: string): set<Id> {
    set id | id in db.jobs && db.jobs[id].jobType == jobType && db.jobs[id].status == Running
  }

  /** Rows of the type that record a start in [from, to). */
  function StartedIn(db: Db, jobType: string, from: int, to: int): set<Id> {
    set id | id in db.jobs && db.jobs[id].jobType == jobType && db.jobs[id].startedAt.Some?
             && from <= db.jobs[id].startedAt.value < to
  }

  /** Rows of the type that record a start later than `after`, with no upper end. */
  function StartedAfter(db: Db, jobType: string, after: int): set<Id> {
    set id | id in db.jobs && db.jobs[id].jobType == jobType && db.jobs[id].startedAt.Some?
             && db.jobs[id].startedAt.value > after
  }

  /**
   The rows the cap's COUNT finds. The subquery reads the table it is meant to refer out of, so that `colmena_jobs.type`
   in it is the counted row's own type: its condition on the type always holds.
   */
  function CountedRunning(db: Db): set<Id> {
    set id | id in db.jobs && db.jobs[id].status == Running
  }

  /** A start the rate limit's COUNT finds: later than the period of its own type ago, if that type is limited. */
  predicate StartCounts(db: Db, now: int, r: Row) {
    r.jobType in db.rates && r.startedAt.Some? && r.startedAt.value > now - db.rates[r.jobType].periodMs
  }

  /** The rows the rate limit's COUNT finds, of every limited type, for the same reason. */
  function CountedStarts(db: Db, now: int): set<Id> {
    set id | id in db.jobs && StartCounts(db, now, db.jobs[id])
  }

  /** The claim finds the job pending and due. */
  predicate Ready(db: Db, id: Id, now: int) {
    id in db.jobs && db.jobs[id].status == Pending && db.jobs[id].runAt <= now
  }

  predicate CapAllows(db: Db, t: string) {
    t in db.caps ==> db.caps[t] > |CountedRunning(db)|
  }

  predicate RateAllows(db: Db, t: string, now: int) {
    t in db.rates ==> db.rates[t].capacity > |CountedStarts(db, now)|
  }

  /** The WHERE clause of the claim. */
  predicate Claimable(db: Db, id: Id, now: int) {
    Ready(db, id, now) && CapAllows(db, db.jobs[id].jobType) && RateAllows(db, db.jobs[id].jobType, now)
  }

  function ClaimedRow(r: Row, now: int, node: string): Row {
    r.(status := Running, claimedAt := Some(now), claimedBy := Some(node), startedAt := Some(now), attempts := r.attempts + 1)
  }

  function Claimed(db: Db, id: Id, now: int, node: string): Db {
    if Claimable(db, id, now) then db.(jobs := db.jobs[id := ClaimedRow(db.jobs[id], now, node)]) else db
  }

  function SucceededRow(r: Row, now: int): Row {
    r.(status := Succeeded, finishedAt := Some(now), lastError := None)
  }

  function DeadRow(r: Row, now: int, error: string): Row {
    r.(status := Dead, finishedAt := Some(now), lastError := Some(error))
  }

  /** Back to pending, with the claim undone. */
  function Unclaimed(r: Row): Row {
    r.(status := Pending, claimedAt := None, claimedBy := None, startedAt := None)
  }

  function ReleasedRow(r: Row): Row {
    Unclaimed(r).(attempts := if r.attempts >= 1 then r.attempts - 1 else 0)
  }

  function RetriedRow(r: Row, nextRun: int, error: string): Row {
    Unclaimed(r).(runAt := nextRun, lastError := Some(error))
  }

  predicate Orphaned(r: Row, now: int) {
    r.status == Running && r.timeoutMs > 0 && r.claimedAt.Some? && r.claimedAt.value + r.timeoutMs < now
  }

  const ORPHANED: string := " (orphaned: reclaimed by sweeper)"

  function SweptRow(r: Row, now: int): Row {
    if Orphaned(r, now)
    then Unclaimed(r).(lastError := Some((if r.lastError.Some? then r.lastError.value else "") + ORPHANED))
    else r
  }

  function Swept(db: Db, now: int): Db {
    db.(jobs := map id | id in db.jobs :: SweptRow(db.jobs[id], now))
  }

  predicate Expired(r: Row, cutoff: int) {
    !Live(r) && r.finishedAt.Some? && r.finishedAt.value < cutoff
  }

  function Reaped(db: Db, cutoff: int): Db {
    db.(jobs := map id | id in db.jobs && !Expired(db.jobs[id], cutoff) :: db.jobs[id])
  }

  function WithCap(db: Db, jobType: string, cap: int): Db {
    if cap <= 0 then db.(caps := db.caps - {jobType}) else db.(caps := db.caps[jobType := cap])
  }

  /** The period is given in nanoseconds and stored in whole milliseconds. */
  function WithRate(db: Db, jobType: string, n: int, per: int): Db {
    if n <= 0 || per <= 0 then db.(rates := db.rates - {jobType})
    else db.(rates := db.rates[jobType := Rate(n, per / 1_000_000)])
  }

  // ------------------------------------------------------------------ workers

  /** A handler at work, with the copy of the row its worker read before the claim, one attempt further. */
  datatype Flight = Flight(id: Id, attempts: int, maxAttempts: int)

  datatype Outcome = Done | NoHandler | Failed(error: string, nextRun: int)

  /** What finalise writes for this outcome, given the row as it is now. It asks neither the status nor the owner. */
  function FinishedRow(f: Flight, outcome: Outcome, now: int, r: Row): Row {
    match outcome
    case Done => SucceededRow(r, now)
    case NoHandler => ReleasedRow(r)
    case Failed(error, nextRun) =>
      if f.attempts >= f.maxAttempts then DeadRow(r, now, error) else RetriedRow(r, nextRun, error)
  }

  function Finished(db: Db, f: Flight, outcome: Outcome, now: int): Db {
    if f.id in db.jobs then Updated(db, f.id, FinishedRow(f, outcome, now, db.jobs[f.id])) else db
  }

  // ------------------------------------------------------------------- steps

  /** The table, and the handlers at work anywhere in the cluster. */
  datatype System = System(db: Db, flights: map<nat, Flight>, next: nat)

  /**
   The statements and what decides them. A claim carries the attempt counts the worker read, perhaps from a replica
   that lags; Crash is a worker that dies, or whose last statement is lost.
   */
  datatype Event =
    | Insert(id: Id, row: Row)
    | Claim(id: Id, now: int, node: string, seenAttempts: int, seenMax: int)
    | Finish(flight: nat, outcome: Outcome, now: int)
    | Crash(flight: nat)
    | Sweep(now: int)
    | Reap(cutoff: int)
    | SetConcurrency(jobType: string, cap: int)
    | SetRateLimit(jobType: string, n: int, per: int)

  /** Inserted rows are fresh ones. */
  predicate Possible(e: Event) {
    e.Insert? ==>
      var r := e.row;
      r == NewRow(r.jobType, r.priority, r.maxAttempts, r.enqueuedAt, r.runAt, r.uniqueKey, r.timeoutMs)
  }

  function Step(s: System, e: Event): System {
    match e
    case Insert(id, row) => s.(db := Inserted(s.db, id, row))
    case Claim(id, now, node, seenAttempts, seenMax) =>
      if Claimable(s.db, id, now)
      then System(Claimed(s.db, id, now, node), s.flights[s.next := Flight(id, seenAttempts + 1, seenMax)], s.next + 1)
      else s
    case Finish(t, outcome, now) =>
      if t in s.flights then System(Finished(s.db, s.flights[t], outcome, now), s.flights - {t}, s.next) else s
    case Crash(t) => s.(flights := s.flights - {t})
    case Sweep(now) => s.(db := Swept(s.db, now))
    case Reap(cutoff) => s.(db := Reaped(s.db, cutoff))
    case SetConcurrency(jobType, cap) => s.(db := WithCap(s.db, jobType, cap))
    case SetRateLimit(jobType, n, per) => s.(db := WithRate(s.db, jobType, n, per))
  }

  function Run(s: System, events: seq<Event>): System {
    if events == [] then s else Step(Run(s, events[..|events| - 1]), events[|events| - 1])
  }

  ghost predicate AllPossible(events: seq<Event>) {
    forall e | e in events :: Possible(e)
  }
}
