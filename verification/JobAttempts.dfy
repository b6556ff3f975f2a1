/**
 How often one job can be claimed, over every interleaving of workers, sweeper and reaper. The decision between retry
 and dead is made on the worker's copy of the row, and nothing stops a worker whose job was swept from writing later.
 */
module JobAttempts {
  import opened Options
  import opened JobQueue
  import opened JobInvariants
  import opened JobLimits

  /**
   What has happened to one job: successful claims, how many of them on a copy of the row that lagged behind, and the
   retries, sweeps and releases (no handler registered) that made it pending again.
   */
  datatype Tally = Tally(claims: int, stale: int, retries: int, sweeps: int, releases: int)

  const NOTHING := Tally(0, 0, 0, 0, 0)

  function One(b: bool): int {
    if b then 1 else 0
  }

  /** The event finalises a run of the job, and its statement takes effect. */
  predicate Finalises(s: System, e: Event, id: Id) {
    && e.Finish? && e.flight in s.flights && s.flights[e.flight].id == id && id in s.db.jobs
    && UpdateWorks(s.db, id, FinishedRow(s.flights[e.flight], e.outcome, e.now, s.db.jobs[id]))
  }

  function Counted(s: System, e: Event, id: Id, y: Tally): Tally {
    if e.Claim? && e.id == id && Claimable(s.db, id, e.now) then
      y.(claims := y.claims + 1, stale := y.stale + One(e.seenAttempts < s.db.jobs[id].attempts))
    else if e.Sweep? && id in s.db.jobs && Orphaned(s.db.jobs[id], e.now) then y.(sweeps := y.sweeps + 1)
    else if Finalises(s, e, id) && e.outcome.NoHandler? then y.(releases := y.releases + 1)
    else if Finalises(s, e, id) && e.outcome.Failed? && Early(s.flights[e.flight]) then y.(retries := y.retries + 1)
    else y
  }

  function TallyOf(s: System, events: seq<Event>, id: Id): Tally {
    if events == [] then NOTHING
    else
      var n := |events| - 1;
      Counted(Run(s, events[..n]), events[n], id, TallyOf(s, events[..n], id))
  }

  /** The worker would retry the job if its handler failed. */
  predicate Early(f: Flight) {
    f.attempts < f.maxAttempts
  }

  function FlightsOf(s: System, id: Id): set<nat> {
    set k | k in s.flights && s.flights[k].id == id
  }

  function EarlyFlights(s: System, id: Id): set<nat> {
    set k | k in s.flights && s.flights[k].id == id && Early(s.flights[k])
  }

  /** The worker's copy is one of this row, whose max_attempts never changes; its attempts may be out of date. */
  predicate Copied(s: System, e: Event, id: Id) {
    e.Claim? && e.id == id && id in s.db.jobs ==> e.seenMax == s.db.jobs[id].maxAttempts
  }

  /** Finding and claiming the job as one step: the worker's copy is what the claim finds. */
  predicate Fresh(s: System, e: Event, id: Id) {
    e.Claim? && e.id == id && id in s.db.jobs ==>
      e.seenAttempts == s.db.jobs[id].attempts && e.seenMax == s.db.jobs[id].maxAttempts
  }

  predicate Reinserts(e: Event, id: Id) {
    e.Insert? && e.id == id
  }

  function Max(a: int, b: int): int {
    if a >= b then a else b
  }

  /**
   The books of one job. Claims that were not released are in `attempts`; each run that was retried, released or is
   still at work was a claim; and a run that may yet be retried began with attempts to spare, or on a stale copy.
   */
  ghost predicate JobInv(s: System, id: Id, max: int, y: Tally) {
    && (id in s.db.jobs ==> s.db.jobs[id].maxAttempts == max && y.claims <= s.db.jobs[id].attempts + y.releases)
    && (forall k | k in s.flights && s.flights[k].id == id :: s.flights[k].maxAttempts == max)
    && y.retries + y.releases + |FlightsOf(s, id)| <= y.claims
    && y.retries + |EarlyFlights(s, id)| <= Max(0, max - 1) + y.stale && y.stale >= 0
    && y.claims + One(id in s.db.jobs && s.db.jobs[id].status == Pending) <= 1 + y.retries + y.sweeps + y.releases
  }

  lemma OneMoreFlight(s: System, n: System, f: Flight, id: Id)
    requires s.next !in s.flights && n.flights == s.flights[s.next := f]
    ensures |FlightsOf(n, id)| == |FlightsOf(s, id)| + One(f.id == id)
    ensures |EarlyFlights(n, id)| == |EarlyFlights(s, id)| + One(f.id == id && Early(f))
  {
    OneMoreMember(FlightsOf(s, id), FlightsOf(n, id), s.next, f.id == id);
    OneMoreMember(EarlyFlights(s, id), EarlyFlights(n, id), s.next, f.id == id && Early(f));
  }

  lemma OneMoreMember(a: set<nat>, b: set<nat>, k: nat, added: bool)
    requires k !in a && (k in b <==> added) && forall j | j != k :: j in a <==> j in b
    ensures |b| == |a| + One(added)
  {
    assert b - {k} == a;
  }

  lemma ClaimKeepsJobInv(s: System, e: Event, id: Id, max: int, y: Tally)
    requires e.Claim? && Inv(s) && JobInv(s, id, max, y) && Copied(s, e, id)
    ensures JobInv(Step(s, e), id, max, Counted(s, e, id, y))
  {
    hide Claimable, EarlyFlights, FlightsOf, KeysUnique;
    if Claimable(s.db, e.id, e.now) {
      ClaimableIsPending(s.db, e.id, e.now);
      OneMoreFlight(s, Step(s, e), Flight(e.id, e.seenAttempts + 1, e.seenMax), id);
      EarlyFlightsAreFlights(s, id);
    }
  }

  lemma EarlyFlightsAreFlights(s: System, id: Id)
    ensures |EarlyFlights(s, id)| <= |FlightsOf(s, id)|
  {
    SubsetSize(EarlyFlights(s, id), FlightsOf(s, id));
  }

  lemma ClaimableIsPending(db: Db, id: Id, now: int)
    requires Claimable(db, id, now)
    ensures id in db.jobs && db.jobs[id].status == Pending
  {
  }

  lemma OneLessFlight(s: System, n: System, k: nat, id: Id)
    requires k in s.flights && n.flights == s.flights - {k}
    ensures |FlightsOf(n, id)| == |FlightsOf(s, id)| - One(s.flights[k].id == id)
    ensures |EarlyFlights(n, id)| == |EarlyFlights(s, id)| - One(s.flights[k].id == id && Early(s.flights[k]))
  {
    assert FlightsOf(n, id) == FlightsOf(s, id) - {k};
    assert EarlyFlights(n, id) == EarlyFlights(s, id) - {k};
  }

  lemma FinishKeepsJobInv(s: System, e: Event, id: Id, max: int, y: Tally)
    requires e.Finish? && Inv(s) && JobInv(s, id, max, y)
    ensures JobInv(Step(s, e), id, max, Counted(s, e, id, y))
  {
    hide UpdateWorks, EarlyFlights, FlightsOf, KeysUnique;
    if e.flight in s.flights {
      OneLessFlight(s, Step(s, e), e.flight, id);
      assert id in s.db.jobs ==> RowOk(s.db.jobs[id]);
    }
  }

  lemma StepKeepsJobInv(s: System, e: Event, id: Id, max: int, y: Tally)
    requires Inv(s) && JobInv(s, id, max, y) && Copied(s, e, id) && !Reinserts(e, id)
    ensures JobInv(Step(s, e), id, max, Counted(s, e, id, y))
  {
    hide Claimable, Finished, Claimed, EarlyFlights, FlightsOf;
    match e
    case Claim(_, _, _, _, _) => ClaimKeepsJobInv(s, e, id, max, y);
    case Finish(_, _, _) => FinishKeepsJobInv(s, e, id, max, y);
    case Crash(k) => if k in s.flights { OneLessFlight(s, Step(s, e), k, id); } else { SameFlights(s, Step(s, e), id); }
    case Insert(_, _) => SameFlights(s, Step(s, e), id);
    case Sweep(_) => SameFlights(s, Step(s, e), id);
    case Reap(_) => SameFlights(s, Step(s, e), id);
    case SetConcurrency(_, _) => SameFlights(s, Step(s, e), id);
    case SetRateLimit(_, _, _) => SameFlights(s, Step(s, e), id);
  }

  lemma SameFlights(s: System, n: System, id: Id)
    requires n.flights == s.flights
    ensures EarlyFlights(n, id) == EarlyFlights(s, id) && FlightsOf(n, id) == FlightsOf(s, id)
  {
  }

  /** Each claim of the job in the run is on a copy of its row. */
  ghost predicate AllCopied(s: System, events: seq<Event>, id: Id) {
    forall n | 0 <= n < |events| :: Copied(Run(s, events[..n]), events[n], id)
  }

  /** Each claim of the job in the run finds what its worker read. */
  ghost predicate AllFresh(s: System, events: seq<Event>, id: Id) {
    forall n | 0 <= n < |events| :: Fresh(Run(s, events[..n]), events[n], id)
  }

  lemma {:induction false} RunKeepsJobInv(s: System, events: seq<Event>, id: Id, max: int)
    requires Inv(s) && JobInv(s, id, max, NOTHING) && AllPossible(events) && AllCopied(s, events, id)
    requires forall e | e in events :: !Reinserts(e, id)
    ensures JobInv(Run(s, events), id, max, TallyOf(s, events, id))
  {
    hide Inv, JobInv, Step, Copied, Possible, Counted, Reinserts;
    if events != [] {
      var n := |events| - 1;
      forall i | 0 <= i < n ensures Copied(Run(s, events[..n][..i]), events[..n][i], id) {
        assert events[..n][..i] == events[..i];
      }
      RunKeepsJobInv(s, events[..n], id, max);
      RunKeepsInv(s, events[..n]);
      assert events[n] in events;
      StepKeepsJobInv(Run(s, events[..n]), events[n], id, max, TallyOf(s, events[..n], id));
    }
  }

  /**
   Over every interleaving, a job is claimed at most max(1, max_attempts) times from its insertion on, plus the times it
   was swept, the times a worker without a handler gave it back, and the claims made on a copy that lagged behind.
   */
  lemma AttemptsAreBounded(s: System, events: seq<Event>, id: Id)
    requires Inv(s) && id in s.db.jobs && forall k | k in s.flights :: s.flights[k].id != id
    requires AllPossible(events) && AllCopied(s, events, id) && forall e | e in events :: !Reinserts(e, id)
    ensures var y := TallyOf(s, events, id);
            y.claims <= Max(1, s.db.jobs[id].maxAttempts) + y.sweeps + y.releases + y.stale
  {
    hide Step, TallyOf, Run, AllCopied;
    assert EarlyFlights(s, id) == {} && FlightsOf(s, id) == {};
    assert RowOk(s.db.jobs[id]);
    assert JobInv(s, id, s.db.jobs[id].maxAttempts, NOTHING);
    RunKeepsJobInv(s, events, id, s.db.jobs[id].maxAttempts);
  }

  lemma {:induction false} FreshCopiesAreNotStale(s: System, events: seq<Event>, id: Id)
    requires AllFresh(s, events, id)
    ensures AllCopied(s, events, id) && TallyOf(s, events, id).stale == 0
  {
    hide Run, Claimable, Finalises;
    if events != [] {
      var n := |events| - 1;
      forall i | 0 <= i < n ensures Fresh(Run(s, events[..n][..i]), events[..n][i], id) {
        assert events[..n][..i] == events[..i];
      }
      FreshCopiesAreNotStale(s, events[..n], id);
      ClaimsArePresent(Run(s, events[..n]), events[n], id);
    }
  }

  lemma ClaimsArePresent(s: System, e: Event, id: Id)
    ensures e.Claim? && Claimable(s.db, id, e.now) ==> id in s.db.jobs
  {
  }

  /** With find and claim as one step, no claim is stale. */
  lemma FreshAttemptsAreBounded(s: System, events: seq<Event>, id: Id)
    requires Inv(s) && id in s.db.jobs && forall k | k in s.flights :: s.flights[k].id != id
    requires AllPossible(events) && AllFresh(s, events, id) && forall e | e in events :: !Reinserts(e, id)
    ensures var y := TallyOf(s, events, id);
            y.claims <= Max(1, s.db.jobs[id].maxAttempts) + y.sweeps + y.releases
  {
    hide Inv, TallyOf, AllFresh, AllCopied;
    FreshCopiesAreNotStale(s, events, id);
    AttemptsAreBounded(s, events, id);
  }
}
