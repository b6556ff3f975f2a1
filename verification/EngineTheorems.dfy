/**
 What the backup system promises, over whole runs: the latest restore, point-in-time restore, segment bookkeeping,
 snapshots taken while readers pin the WAL, and exactly when transactions are lost.
 */
module EngineTheorems {
  import opened Wal
  import opened WalScan
  import opened Sqlite
  import opened Segments
  import opened Engine
  import opened Options
  import opened EngineProofs

  // ------------------------------------------------------------------- runs

  /** A database file with an empty WAL, an empty backend, and an engine that has not started. */
  ghost predicate Initial(s: System) {
    s.m.wal == [] && s.m.backfilled == 0 && Fits(s.m.main) && s.t == NO_TRACKER && s.backend == map[] && s.log == map[] && s.call == Idle
  }

  ghost predicate IsRun(trace: seq<System>) {
    && trace != [] && Initial(trace[0])
    && forall i | 0 <= i < |trace| - 1 :: Step(trace[i], trace[i + 1])
  }

  /** The invariant holds in every reachable state. */
  lemma {:induction false} ReachableInv(trace: seq<System>, i: nat)
    requires IsRun(trace) && i < |trace|
    ensures Inv(trace[i])
  {
    if i == 0 {
      EmptyWalIsFine(trace[0].m);
    } else {
      ReachableInv(trace, i - 1);
      assert Step(trace[i - 1], trace[i - 1 + 1]);
      StepKeepsInv(trace[i - 1], trace[i]);
    }
  }

  // ---------------------------------------------------------------- restore

  /** A generation Restore may pick: a newest one not after the timestamp (any newest one without it). */
  ghost predicate Chosen(gens: set<GenId>, at: Option<int>, g: GenId) {
    && g in gens && (at.Some? ==> g.createdAt <= at.value)
    && forall x | x in gens && (at.Some? ==> x.createdAt <= at.value) :: x.createdAt <= g.createdAt
  }

  /** The segments Restore replays from a sorted listing. */
  function Selected(listing: seq<Seg>, at: Option<int>): seq<Seg> {
    if at.Some? then UpTo(listing, at.value) else listing
  }

  /** What Restore may rebuild. */
  ghost predicate Restores(backend: Backend, at: Option<int>, g: GenId, db: Db) {
    && Chosen(backend.Keys, at, g)
    && exists listing :: IsListing(listing, backend[g].segs) && db == Replay(backend[g].snapshot, Selected(listing, at))
  }

  /** How many segments of a generation count for a restore. */
  function ShipsUsed(segs: seq<Seg>, at: Option<int>): (n: nat)
    ensures n <= |segs|
  {
    if at.Some? then ShippedBy(segs, at.value) else |segs|
  }

  /** A restore of a generation it may choose replays the ships up to the timestamp, in the order they were made. */
  lemma RestoreIsReplay(s: System, at: Option<int>, g: GenId, db: Db)
    requires Inv(s)
    ensures Chosen(s.backend.Keys, at, g) ==> g in s.backend && g in s.log
    ensures Restores(s.backend, at, g, db) <==>
            && Chosen(s.backend.Keys, at, g)
            && db == Replay(s.backend[g].snapshot, s.log[g].segs[..ShipsUsed(s.log[g].segs, at)])
  {
    hide Base, Replay, InStep, Tracked, ShippedBase, Chosen;
    ChosenIsStored(s.backend.Keys, at, g);
    if Chosen(s.backend.Keys, at, g) {
      var h := s.log[g];
      assert GenerationOk(s.backend[g], h);
      hide GenerationOk, IsListing;
      ShipOrderIsAListing(s.backend[g], h);
      forall listing | IsListing(listing, s.backend[g].segs) ensures listing == h.segs {
        OnlyListing(s.backend[g], h, listing);
      }
      SelectedShips(s.backend[g], h, at);
    }
  }

  lemma ChosenIsStored(gens: set<GenId>, at: Option<int>, g: GenId)
    ensures Chosen(gens, at, g) ==> g in gens
  {
  }

  lemma ShipOrderIsAListing(st: Stored, h: History)
    requires GenerationOk(st, h)
    ensures IsListing(h.segs, st.segs)
  {
    hide Replay;
    ShipOrderIsSorted(h.segs);
  }

  lemma OnlyListing(st: Stored, h: History, listing: seq<Seg>)
    requires GenerationOk(st, h) && IsListing(listing, st.segs)
    ensures listing == h.segs
  {
    hide Replay;
    ListingIsShipOrder(listing, h.segs, st.segs);
  }

  lemma SelectedShips(st: Stored, h: History, at: Option<int>)
    requires GenerationOk(st, h)
    ensures Selected(h.segs, at) == h.segs[..ShipsUsed(h.segs, at)]
  {
    hide Replay;
    if at.Some? { UpToIsAPrefix(h.segs, at.value); }
    assert h.segs[..|h.segs|] == h.segs;
  }

  /**
   Point-in-time restore is exact: the state of the last ship at or before the timestamp, or the snapshot; up to the
   first loss of the generation.
   */
  lemma PointInTimeRestore(s: System, at: Option<int>, g: GenId, db: Db)
    requires Inv(s) && Restores(s.backend, at, g, db)
    ensures g in s.log && ShipsUsed(s.log[g].segs, at) < |s.log[g].lives|
    ensures ShipsUsed(s.log[g].segs, at) <= Intact(s.log[g]) ==> db == s.log[g].lives[ShipsUsed(s.log[g].segs, at)]
  {
    RestoreIsReplay(s, at, g, db);
    assert GenerationOk(s.backend[g], s.log[g]);
    hide Base, Replay, InStep, Tracked, ShippedBase;
  }

  /** The WAL's pages aside, the main file is the database that the backend has below the WAL. */
  ghost predicate FileMatches(s: System) {
    && s.t.generation.Some? && Knows(s)
    && var g := s.t.generation.value;
       SameBelow(ShippedBase(s.m, s.t, s.backend[g], s.log[g]), s.m.main, Frames(s.m.wal))
  }

  /**
   With nothing left to ship, whatever was lost before, the segments of the current generation rebuild the live database
   if and only if each page that the WAL leaves to the main file is there as the backend has it.
   */
  lemma ShippedIsLiveIff(s: System)
    requires Inv(s) && s.t.generation.Some? && AllShipped(s)
    ensures var g := s.t.generation.value; Replay(s.backend[g].snapshot, s.log[g].segs) == Live(s.m) <==> FileMatches(s)
  {
    hide Replay, HeaderOf, Committed, GenerationOk, Base, Overlay, ShippedBase, Frames, SameBelow;
    var g := s.t.generation.value;
    ShippedIsCommitted(s.m, s.t, s.log[g], s.clock);
    ReplayIsOverlay(s.m, s.t, s.backend[g], s.log[g], s.clock);
    OverlaysAreTheSame(ShippedBase(s.m, s.t, s.backend[g], s.log[g]), s.m.main, Frames(s.m.wal));
  }

  /** With nothing left to ship and nothing lost, the segments of the current generation rebuild the live database. */
  lemma ShippedIsLive(s: System)
    requires Inv(s) && s.t.generation.Some? && s.log[s.t.generation.value].lost.None? && AllShipped(s)
    ensures var g := s.t.generation.value; Replay(s.backend[g].snapshot, s.log[g].segs) == Live(s.m)
  {
    hide Replay, HeaderOf, Committed, GenerationOk, Base, Live, Overlay, ShippedBase, Frames;
    var g := s.t.generation.value;
    ShippedIsCommitted(s.m, s.t, s.log[g], s.clock);
    ReplayIsOverlay(s.m, s.t, s.backend[g], s.log[g], s.clock);
    BaseGivesLive(ShippedBase(s.m, s.t, s.backend[g], s.log[g]), s.m);
  }

  /** No stored generation is younger than the current one. */
  predicate Newest(s: System) {
    s.t.generation.Some? ==> forall x | x in s.backend :: x.createdAt <= s.t.generation.value.createdAt
  }

  /** No other generation was opened at the same instant as the current one. */
  predicate OpenedAlone(s: System) {
    s.t.generation.Some? ==> forall x | x in s.backend && x.createdAt == s.t.generation.value.createdAt :: x == s.t.generation.value
  }

  /** The latest restore may pick the current generation if and only if none is younger; and then else only one as old. */
  lemma LatestIsCurrent(s: System, g: GenId)
    requires Inv(s) && s.t.generation.Some?
    ensures Chosen(s.backend.Keys, None, s.t.generation.value) <==> Newest(s)
    ensures Newest(s) ==>
              (Chosen(s.backend.Keys, None, g) <==> g in s.backend && g.createdAt == s.t.generation.value.createdAt)
  {
    hide Base, Tracked, InStep, ShippedBase, GenerationOk;
  }

  /** Only an upload that was stored and reported as failed makes a younger generation than the current one. */
  lemma NewestStays(s: System, n: System)
    requires Inv(s) && Newest(s) && Step(s, n)
    ensures Newest(n) || exists g :: Orphans(s, n, g)
  {
    hide Base, Tracked, InStep, ShippedBase, GenerationOk, Write, Reset, Checkpoint, CycleEnds, Live, HeaderOf, Committed, SaltsOf;
  }

  /** A snapshot that succeeds is the youngest again. */
  lemma OpenedIsNewest(s: System, g: GenId)
    requires Inv(s) && s.clock <= g.createdAt
    ensures Newest(Opened(s, g))
  {
    hide Base, Tracked, InStep, ShippedBase, GenerationOk;
  }

  /**
   With nothing left to ship, and the current generation alone the youngest, every latest restore is the live database if
   and only if the file matches what was shipped; and so when nothing was ever lost.
   */
  lemma RestoreIsLive(s: System, g: GenId, db: Db)
    requires Inv(s) && s.t.generation.Some? && AllShipped(s)
    requires Newest(s) && OpenedAlone(s) && Restores(s.backend, None, g, db)
    ensures g == s.t.generation.value && g in s.log
    ensures db == Live(s.m) <==> FileMatches(s)
    ensures s.log[g].lost.None? ==> db == Live(s.m)
  {
    hide Base, Tracked, InStep, ShippedBase, AllShipped, Live, Replay, IsListing, FileMatches, GenerationOk;
    LatestIsCurrent(s, g);
    RestoreIsReplay(s, None, g, db);
    assert s.log[g].segs[..|s.log[g].segs|] == s.log[g].segs;
    ShippedIsLiveIff(s);
    if s.log[g].lost.None? { ShippedIsLive(s); }
  }

  /** The generation is not the one the engine ships to. */
  predicate LeftAlone(s: System, o: GenId) {
    s.t.generation != Some(o) && o in s.backend && o in s.log
  }

  lemma ShipLeavesAlone(s: System, n: System, o: GenId)
    requires LeftAlone(s, o) && SyncShips(s, n)
    ensures LeftAlone(n, o) && n.log[o] == s.log[o] && n.backend[o] == s.backend[o]
  {
    hide Live, HeaderOf, Committed, SaltsOf;
  }

  lemma OpensLeavesAlone(s: System, n: System, cutoff: int, o: GenId)
    requires s.backend.Keys == s.log.Keys && LeftAlone(s, o) && Opens(s, n, cutoff) && o in n.backend
    ensures LeftAlone(n, o) && n.log[o] == s.log[o] && n.backend[o] == s.backend[o]
  {
  }

  lemma CheckpointsLeaveAlone(s: System, n: System, threshold: int, o: GenId)
    requires LeftAlone(s, o) && (SyncCheckpoints(s, n, threshold) || Compacts(s, n))
    ensures LeftAlone(n, o) && n.log[o].segs == s.log[o].segs && n.backend[o] == s.backend[o]
  {
    hide Checkpoint, CycleEnds;
    CycleEndsKeepsShips(s, o);
  }

  lemma WritersLeaveAlone(s: System, n: System, o: GenId)
    requires LeftAlone(s, o) && Writers(s, n)
    ensures LeftAlone(n, o) && n.log[o].segs == s.log[o].segs && n.backend[o] == s.backend[o]
  {
    hide Write, Reset, CycleEnds;
    CycleEndsKeepsShips(s, o);
  }

  lemma StepLeavesAlone(s: System, n: System, o: GenId)
    requires Inv(s) && LeftAlone(s, o) && Step(s, n) && o in n.backend
    ensures LeftAlone(n, o) && n.log[o].segs == s.log[o].segs && n.backend[o] == s.backend[o]
  {
    assert s.backend.Keys == s.log.Keys;
    hide Inv, SyncShips, Opens, Writers, SyncCheckpoints, Compacts;
    if Writers(s, n) {
      WritersLeaveAlone(s, n, o);
    } else if SyncShips(s, n) {
      ShipLeavesAlone(s, n, o);
    } else if threshold: int :| SyncCheckpoints(s, n, threshold) {
      CheckpointsLeaveAlone(s, n, threshold, o);
    } else if Compacts(s, n) {
      CheckpointsLeaveAlone(s, n, 0, o);
    } else if cutoff: int :| Opens(s, n, cutoff) {
      OpensLeavesAlone(s, n, cutoff, o);
    }
  }

  /**
   A generation stored by an upload that reported an error keeps its snapshot and gets no segment, however long it is
   kept: every restore that picks it returns the file of that moment, whatever was committed and shipped since.
   */
  lemma {:induction false} OrphanStaysAsUploaded(trace: seq<System>, i: nat, k: nat, o: GenId, at: Option<int>, db: Db)
    requires IsRun(trace) && i < k < |trace| && Orphans(trace[i], trace[i + 1], o)
    requires forall j | i < j <= k :: o in trace[j].backend
    ensures LeftAlone(trace[k], o) && trace[k].backend[o] == Stored(trace[i].m.main, map[]) && trace[k].log[o].segs == []
    ensures Restores(trace[k].backend, at, o, db) ==> db == trace[i].m.main
    decreases k
  {
    hide IsRun, Inv, Step, Restores, Orphans, LeftAlone, Replay, ShippedBy;
    StepOfRun(trace, k - 1);
    ReachableInv(trace, k);
    if k - 1 == i {
      OrphanIsLeftAlone(trace[i], trace[k], o);
    } else {
      OrphanStaysAsUploaded(trace, i, k - 1, o, at, db);
      StepLeavesAlone(trace[k - 1], trace[k], o);
    }
    if Restores(trace[k].backend, at, o, db) {
      RestoreIsReplay(trace[k], at, o, db);
      NoSegmentsReplay(trace[k].backend[o].snapshot, trace[k].log[o].segs);
    }
  }

  lemma StepOfRun(trace: seq<System>, i: nat)
    requires IsRun(trace) && i + 1 < |trace|
    ensures Inv(trace[i]) && Step(trace[i], trace[i + 1])
  {
    ReachableInv(trace, i);
  }

  lemma OrphanIsLeftAlone(s: System, n: System, o: GenId)
    requires Inv(s) && Orphans(s, n, o)
    ensures LeftAlone(n, o) && n.backend[o] == Stored(s.m.main, map[]) && n.log[o].segs == []
  {
    hide Base, Tracked, InStep, ShippedBase, GenerationOk;
  }

  // ---------------------------------------------- what the history records

  /** Segment k of a generation's history was shipped by the step from state j, whose live database it records. */
  ghost predicate ShippedAt(trace: seq<System>, j: nat, g: GenId, h: History, k: nat) {
    && j < |trace| - 1 && k < |h.segs| && k + 1 < |h.lives|
    && h.lives[k + 1] == Live(trace[j].m)
    && g in trace[j].log && |trace[j].log[g].segs| == k
    && g in trace[j + 1].log && |trace[j + 1].log[g].segs| == k + 1
    && trace[j].clock <= h.segs[k].key.createdAt <= trace[j + 1].clock
  }

  /** After that step nothing was left to ship, and the generation held exactly this snapshot and these segments. */
  ghost predicate ShippedWhole(trace: seq<System>, j: nat, g: GenId, snapshot: Db, segs: seq<Seg>) {
    && j < |trace| - 1 && trace[j + 1].t.generation == Some(g) && AllShipped(trace[j + 1]) && trace[j + 1].m == trace[j].m
    && g in trace[j + 1].backend && trace[j + 1].backend[g].snapshot == snapshot
    && g in trace[j + 1].log && trace[j + 1].log[g].segs == segs
  }

  /** The history of `g` goes from `before` to `after` in a step from state s to state n. */
  ghost predicate HistoryStep(s: System, n: System, g: GenId)
    requires g in n.log
  {
    if g !in s.log then n.log[g] == History([], [s.m.main], None)
    else
      var h := n.log[g];
      (h.segs, h.lives) == (s.log[g].segs, s.log[g].lives) ||
      (exists seg: Seg ::
         && (h.segs, h.lives) == (s.log[g].segs + [seg], s.log[g].lives + [Live(s.m)])
         && s.clock <= seg.key.createdAt <= n.clock)
  }

  lemma CycleEndsKeepsShips(s: System, g: GenId)
    ensures CycleEnds(s).Keys == s.log.Keys
    ensures g in s.log ==> (CycleEnds(s)[g].segs, CycleEnds(s)[g].lives) == (s.log[g].segs, s.log[g].lives)
  {
    hide NothingUnshipped;
  }

  lemma ShipExtendsHistory(s: System, n: System, g: GenId)
    requires SyncShips(s, n) && g in n.log
    ensures HistoryStep(s, n, g)
  {
    hide Checkpoint, Frames, HeaderOf, Committed, Live, SaltsOf;
    if s.t.generation.Some? && HeaderOf(s.m.wal).Parsed? {
      var r := s.(t := Rolled(s.t, s.m.wal));
      if n.log != s.log {
        assert n.log == Ship(r, n.clock).log;
        var seg := NewSegment(r, n.clock);
        if s.t.generation.value == g {
          assert n.log[g] == History(s.log[g].segs + [seg], s.log[g].lives + [Live(s.m)], s.log[g].lost);
        }
      }
    }
  }

  /** A step leaves a generation's history alone, starts it, or adds the live database of that moment. */
  lemma StepExtendsHistory(s: System, n: System, g: GenId)
    requires s.backend.Keys == s.log.Keys && Step(s, n) && g in n.log
    ensures HistoryStep(s, n, g)
  {
    hide SyncShips, Write, Reset, Checkpoint, Live, CycleEnds;
    CycleEndsKeepsShips(s, g);
    if SyncShips(s, n) {
      ShipExtendsHistory(s, n, g);
    }
  }

  /** Every entry of every history is the live database at the step that shipped it, and what it shipped is still stored. */
  lemma {:induction false} HistoryIsTrue(trace: seq<System>, i: nat, g: GenId, k: nat)
    requires IsRun(trace) && i < |trace| && g in trace[i].log && k < |trace[i].log[g].segs|
    ensures g in trace[i].backend
    ensures exists j: nat ::
              (j < i && ShippedAt(trace, j, g, trace[i].log[g], k)
               && ShippedWhole(trace, j, g, trace[i].backend[g].snapshot, trace[i].log[g].segs[..k + 1]))
  {
    hide IsRun, HistoryStep, ShippedAt, ShippedWhole, Step, SnapshotStep;
    RunStart(trace);
    if i > 0 {
      var s, n := trace[i - 1], trace[i];
      RunStepExtendsHistory(trace, i - 1, g);
      if g in s.log && k < |s.log[g].segs| {
        HistoryIsTrue(trace, i - 1, g, k);
        var j: nat :| j < i - 1 && ShippedAt(trace, j, g, s.log[g], k)
                      && ShippedWhole(trace, j, g, s.backend[g].snapshot, s.log[g].segs[..k + 1]);
        EntryIsKept(trace, i - 1, j, g, k);
      } else {
        NewEntryIsLive(trace, i - 1, g, k);
        NewEntryIsWhole(trace, i - 1, g, k);
      }
    }
  }

  lemma RunStart(trace: seq<System>)
    requires IsRun(trace)
    ensures trace[0].log == map[] && trace[0].backend == map[]
  {
  }

  lemma RunStepExtendsHistory(trace: seq<System>, i: nat, g: GenId)
    requires IsRun(trace) && i + 1 < |trace| && g in trace[i + 1].log
    ensures HistoryStep(trace[i], trace[i + 1], g)
    ensures g in trace[i].log ==> |trace[i].log[g].lives| == |trace[i].log[g].segs| + 1 && g in trace[i].backend
    ensures g in trace[i + 1].backend && SnapshotStep(trace[i], trace[i + 1], g)
  {
    ReachableInv(trace, i);
    ReachableInv(trace, i + 1);
    assert g in trace[i].log ==> GenerationOk(trace[i].backend[g], trace[i].log[g]);
    hide Base, GenerationOk, InStep, Tracked, ShippedBase;
    assert Step(trace[i], trace[i + 1]);
    hide Step;
    StepExtendsHistory(trace[i], trace[i + 1], g);
    StepKeepsSnapshots(trace[i], trace[i + 1], g);
  }

  lemma EntryIsKept(trace: seq<System>, i: nat, j: nat, g: GenId, k: nat)
    requires i + 1 < |trace| && g in trace[i].log && g in trace[i + 1].log && HistoryStep(trace[i], trace[i + 1], g)
    requires g in trace[i].backend && g in trace[i + 1].backend && SnapshotStep(trace[i], trace[i + 1], g)
    requires |trace[i].log[g].lives| == |trace[i].log[g].segs| + 1
    requires ShippedAt(trace, j, g, trace[i].log[g], k)
    requires ShippedWhole(trace, j, g, trace[i].backend[g].snapshot, trace[i].log[g].segs[..k + 1])
    ensures ShippedAt(trace, j, g, trace[i + 1].log[g], k)
    ensures ShippedWhole(trace, j, g, trace[i + 1].backend[g].snapshot, trace[i + 1].log[g].segs[..k + 1])
  {
    assert trace[i + 1].log[g].segs[..k + 1] == trace[i].log[g].segs[..k + 1];
  }

  lemma NewEntryIsWhole(trace: seq<System>, i: nat, g: GenId, k: nat)
    requires IsRun(trace) && i + 1 < |trace| && g in trace[i + 1].log && HistoryStep(trace[i], trace[i + 1], g)
    requires g in trace[i].log ==> |trace[i].log[g].segs| <= k
    requires k < |trace[i + 1].log[g].segs|
    ensures g in trace[i + 1].backend
    ensures ShippedWhole(trace, i, g, trace[i + 1].backend[g].snapshot, trace[i + 1].log[g].segs[..k + 1])
  {
    ReachableInv(trace, i);
    ReachableInv(trace, i + 1);
    assert trace[i + 1].backend.Keys == trace[i + 1].log.Keys;
    assert Step(trace[i], trace[i + 1]);
    hide IsRun, Inv, Step, Live;
    OnlyShipsAdd(trace[i], trace[i + 1], g);
    assert trace[i + 1].log[g].segs[..k + 1] == trace[i + 1].log[g].segs;
  }

  lemma ShipAdds(s: System, n: System, g: GenId)
    requires SyncShips(s, n) && g in s.log && g in n.log && n.log[g].segs != s.log[g].segs
    ensures n.call.Shipped? && s.t.generation == Some(g)
  {
    hide Live, HeaderOf, Committed, SaltsOf;
  }

  lemma OpenedLog(s: System, n: System, cutoff: int, g: GenId)
    requires s.backend.Keys == s.log.Keys && Opens(s, n, cutoff) && g in s.log && g in n.log
    ensures n.log[g] == s.log[g]
  {
  }

  /** What a step that ships nothing may do to a history: nothing, or what the end of a cycle does. */
  lemma LogStep(s: System, n: System, g: GenId)
    requires s.backend.Keys == s.log.Keys && Step(s, n) && g in s.log && g in n.log
    ensures SyncShips(s, n) || n.log[g] == s.log[g] || (n.log == CycleEnds(s) && EndsCycle(s.m, n.m))
  {
    hide SyncShips, Write, Reset, Checkpoint, CycleEnds, Opens, EndsCycle;
    if Reset(s.m, n.m) { ResetEndsTheCycle(s.m, n.m); }
    if Checkpoint(s.m, n.m) && n.m.wal != s.m.wal { CheckpointEndsCycle(s.m, n.m); }
    if cutoff: int :| Opens(s, n, cutoff) { OpenedLog(s, n, cutoff, g); }
  }

  /** Segments are added to a history only by a ship of its generation, which leaves nothing to ship. */
  lemma OnlyShipsAdd(s: System, n: System, g: GenId)
    requires Inv(s) && Step(s, n) && g in s.log && g in n.log && n.log[g].segs != s.log[g].segs
    ensures n.t.generation == Some(g) && AllShipped(n) && n.m == s.m
  {
    CycleEndsKeepsShips(s, g);
    assert s.backend.Keys == s.log.Keys;
    hide Inv, Step, CycleEnds, AllShipped, SyncShips, EndsCycle;
    LogStep(s, n, g);
    if SyncShips(s, n) {
      ShipAdds(s, n, g);
      SyncShipsKeepsInv(s, n);
    }
  }

  lemma NewEntryIsLive(trace: seq<System>, i: nat, g: GenId, k: nat)
    requires i + 1 < |trace| && g in trace[i + 1].log && HistoryStep(trace[i], trace[i + 1], g)
    requires g in trace[i].log ==> |trace[i].log[g].lives| == |trace[i].log[g].segs| + 1 && |trace[i].log[g].segs| <= k
    requires k < |trace[i + 1].log[g].segs|
    ensures ShippedAt(trace, i, g, trace[i + 1].log[g], k)
  {
  }

  /**
   Point-in-time restore over a run: the result is the snapshot of the chosen generation, or the live database
   of the very state whose ship was the generation's last at or before the timestamp; up to its first loss.
   */
  lemma RestoreReturnsToALiveState(trace: seq<System>, i: nat, at: Option<int>, g: GenId, db: Db)
    requires IsRun(trace) && i < |trace| && Restores(trace[i].backend, at, g, db)
    ensures g in trace[i].backend && g in trace[i].log
    ensures var n := ShipsUsed(trace[i].log[g].segs, at);
            n <= Intact(trace[i].log[g]) ==>
              if n == 0 then db == trace[i].backend[g].snapshot
              else exists j: nat :: j < i && ShippedAt(trace, j, g, trace[i].log[g], n - 1) && db == Live(trace[j].m)
  {
    hide *;
    PointInTimeOnRun(trace, i, at, g, db);
    var n := ShipsUsed(trace[i].log[g].segs, at);
    if 0 < n <= Intact(trace[i].log[g]) {
      HistoryIsTrue(trace, i, g, n - 1);
      var j: nat :| j < i && ShippedAt(trace, j, g, trace[i].log[g], n - 1);
      ShippedWasLive(trace, j, g, trace[i].log[g], n - 1);
    }
  }

  /**
   The same without regard to losses: the result is the live database of the state that shipped it if and only if the
   main file matched what the backend had when that ship was made.
   */
  lemma RestoreReturnsIff(trace: seq<System>, i: nat, at: Option<int>, g: GenId, db: Db)
    requires IsRun(trace) && i < |trace| && Restores(trace[i].backend, at, g, db)
    ensures g in trace[i].backend && g in trace[i].log
    ensures var n := ShipsUsed(trace[i].log[g].segs, at);
            if n == 0 then db == trace[i].backend[g].snapshot
            else exists j: nat ::
                   (j < i && ShippedAt(trace, j, g, trace[i].log[g], n - 1)
                    && (db == Live(trace[j].m) <==> FileMatches(trace[j + 1])))
  {
    hide *;
    ReachableInv(trace, i);
    PointInTimeOnRun(trace, i, at, g, db);
    RestoreIsReplay(trace[i], at, g, db);
    var n := ShipsUsed(trace[i].log[g].segs, at);
    if n == 0 {
      NoSegmentsReplay(trace[i].backend[g].snapshot, trace[i].log[g].segs);
    } else {
      HistoryIsTrue(trace, i, g, n - 1);
      var j: nat :| j < i && ShippedAt(trace, j, g, trace[i].log[g], n - 1)
                    && ShippedWhole(trace, j, g, trace[i].backend[g].snapshot, trace[i].log[g].segs[..n - 1 + 1]);
      WholeShipRebuilds(trace, j, g, trace[i].backend[g].snapshot, trace[i].log[g].segs[..n]);
    }
  }

  lemma NoSegmentsReplay(db: Db, segs: seq<Seg>)
    ensures Replay(db, segs[..0]) == db
  {
  }

  lemma WholeShipRebuilds(trace: seq<System>, j: nat, g: GenId, snapshot: Db, segs: seq<Seg>)
    requires IsRun(trace) && ShippedWhole(trace, j, g, snapshot, segs)
    ensures j + 1 < |trace| && (Replay(snapshot, segs) == Live(trace[j].m) <==> FileMatches(trace[j + 1]))
  {
    ReachableInv(trace, j + 1);
    hide IsRun, Inv, Replay, Live, AllShipped, FileMatches;
    ShippedIsLiveIff(trace[j + 1]);
  }

  lemma ShippedWasLive(trace: seq<System>, j: nat, g: GenId, h: History, k: nat)
    requires ShippedAt(trace, j, g, h, k)
    ensures j < |trace| && k + 1 < |h.lives| && h.lives[k + 1] == Live(trace[j].m)
  {
  }

  lemma PointInTimeOnRun(trace: seq<System>, i: nat, at: Option<int>, g: GenId, db: Db)
    requires IsRun(trace) && i < |trace| && Restores(trace[i].backend, at, g, db)
    ensures g in trace[i].backend && g in trace[i].log
    ensures var h := trace[i].log[g];
            && |h.lives| == |h.segs| + 1
            && h.lives[0] == trace[i].backend[g].snapshot
            && (ShipsUsed(h.segs, at) <= Intact(h) ==> db == h.lives[ShipsUsed(h.segs, at)])
  {
    ReachableInv(trace, i);
    hide IsRun;
    PointInTimeRestore(trace[i], at, g, db);
    assert GenerationOk(trace[i].backend[g], trace[i].log[g]);
    hide Base, InStep, Tracked;
    FirstLifeIsSnapshot(trace[i].backend[g], trace[i].log[g]);
  }

  lemma FirstLifeIsSnapshot(st: Stored, h: History)
    requires GenerationOk(st, h)
    ensures h.lives[0] == st.snapshot
  {
    assert h.segs[..0] == [];
    assert Replay(st.snapshot, h.segs[..0]) == h.lives[0];
  }

  // -------------------------------------------------------------- snapshots

  /** The snapshot of g is the main file as it was in state j, in which the generation was opened. */
  ghost predicate OpenedAt(trace: seq<System>, j: nat, g: GenId, snapshot: Db) {
    j < |trace| - 1 && g !in trace[j].backend && snapshot == trace[j].m.main
  }

  ghost predicate SnapshotStep(s: System, n: System, g: GenId)
    requires g in n.backend
  {
    if g in s.backend then n.backend[g].snapshot == s.backend[g].snapshot else n.backend[g].snapshot == s.m.main
  }

  lemma StepKeepsSnapshots(s: System, n: System, g: GenId)
    requires Step(s, n) && g in n.backend
    ensures SnapshotStep(s, n, g)
  {
    hide Write, Reset, Checkpoint, CycleEnds, Live, HeaderOf, Committed, SaltsOf;
  }

  /**
   Over a run, the snapshot of each generation is the main file of the state that opened it: a base of that state's
   live database, and the live database itself when the checkpoint before it was complete.
   */
  lemma {:induction false} SnapshotIsTheFile(trace: seq<System>, i: nat, g: GenId)
    requires IsRun(trace) && i < |trace| && g in trace[i].backend
    ensures exists j: nat ::
              (&& j < i && OpenedAt(trace, j, g, trace[i].backend[g].snapshot) && Base(trace[j].m.main, trace[j].m)
               && (FullyBackfilled(trace[j].m) ==> trace[j].m.main == Live(trace[j].m)))
  {
    RunStart(trace);
    if i > 0 {
      ReachableInv(trace, i - 1);
      assert Step(trace[i - 1], trace[i - 1 + 1]);
      var base :| Base(base, trace[i - 1].m);
      MainIsABase(base, trace[i - 1].m);
      BaseGivesLive(base, trace[i - 1].m);
      hide IsRun, Step, Inv, Base, FullyBackfilled, Live, Overlay;
      StepKeepsSnapshots(trace[i - 1], trace[i], g);
      CompleteFileIsLive(base, trace[i - 1].m);
      if g in trace[i - 1].backend {
        SnapshotIsTheFile(trace, i - 1, g);
      } else {
        assert OpenedAt(trace, i - 1, g, trace[i].backend[g].snapshot);
      }
    }
  }

  /** Once everything is backfilled, the main file is the live database. */
  lemma CompleteFileIsLive(base: Db, m: Machine)
    requires Base(base, m)
    ensures FullyBackfilled(m) ==> m.main == Live(m)
  {
    BaseGivesLive(base, m);
  }

  /**
   A snapshot taken while readers pin the WAL: however much of it a checkpoint has already copied into the
   main file, replaying the WAL from byte 0 over the copy is replaying it over the original file.
   */
  lemma PinnedSnapshotReplays(base: Db, m: Machine, later: seq<Frame>)
    requires Base(base, m) && Frames(m.wal) <= later && GrowthIsWritten(later)
    ensures Overlay(m.main, later) == Overlay(base, later)
  {
    AgreesExtends(base, m.main, Frames(m.wal), later);
    OverlayOfAgreeing(base, m.main, later);
  }

  /**
   The first segment of a generation starts at byte 0 and holds every frame a checkpoint has dealt with; the pages whose
   last frame it passed are in the main file already, as the segment has them.
   */
  lemma FirstSegmentCoversBackfill(s: System, now: int, p: nat)
    requires Inv(s) && s.t.generation.Some? && s.t.walOffset == 0 && HeaderOf(s.m.wal).Parsed?
    ensures Committed(s.m.wal) <= |s.m.wal|
    ensures var seg := NewSegment(s, now);
            && seg.key.offset == 0 && seg.data == s.m.wal[..Committed(s.m.wal)]
            && Frames(seg.data) == Frames(s.m.wal) && s.m.backfilled <= |Frames(seg.data)|
            && (LastBefore(Frames(seg.data), s.m.backfilled, p) && NeverCutOff(Frames(seg.data), p) ==>
                p in s.m.main.pages && p in Written(Frames(seg.data)) && s.m.main.pages[p] == Written(Frames(seg.data))[p])
  {
    CommittedIsWithinFile(s.m.wal);
    ScanOfCut(s.m.wal);
    var base :| Base(base, s.m);
    hide HeaderOf, Committed, Frames, Replay, GenerationOk, Agrees, GrowthIsWritten, Tracked, InStep, ShippedBase, Written;
    assert s.m.wal[0..Committed(s.m.wal)] == s.m.wal[..Committed(s.m.wal)];
    assert Held(s.m);
    if LastBefore(Frames(s.m.wal), s.m.backfilled, p) { LastIsWritten(Frames(s.m.wal), s.m.backfilled, p); }
  }

  // ------------------------------------------------------------------ losses

  /** The WAL's cycle ends: the file is emptied, or started again under other salts. */
  predicate EndsCycle(m: Machine, n: Machine) {
    || (m.wal != [] && n.wal == [])
    || (HeaderOf(m.wal).Parsed? && HeaderOf(n.wal).Parsed? && SaltsOf(m.wal) != SaltsOf(n.wal))
  }

  /** In this step the generation loses transactions: a cycle ends that the backend cannot rebuild. */
  ghost predicate Loses(s: System, n: System, g: GenId) {
    && s.t.generation == Some(g) && g in s.backend && g in s.log && s.log[g].lost.None?
    && EndsCycle(s.m, n.m) && Live(s.m) != Replay(s.backend[g].snapshot, s.log[g].segs)
  }

  lemma CycleEndsLoss(s: System, g: GenId)
    requires Inv(s) && g in s.log && g in CycleEnds(s) && CycleEnds(s)[g].lost != s.log[g].lost
    ensures s.t.generation == Some(g) && g in s.backend && s.log[g].lost.None? && CycleEnds(s)[g].lost == Some(|s.log[g].segs|)
    ensures Live(s.m) != Replay(s.backend[g].snapshot, s.log[g].segs)
  {
    hide Base, NothingUnshipped, ShippedBase, InStep, Tracked, GenerationOk, Replay, Live;
    UnshippedIsTheDifference(s.m, s.t, s.backend[g], s.log[g], s.clock);
  }

  lemma CheckpointEndsCycle(m: Machine, n: Machine)
    requires Checkpoint(m, n) && n.wal != m.wal
    ensures EndsCycle(m, n)
  {
    hide CopiedTo, Agrees, Trimmed, Frames, HeaderOf;
  }

  lemma ResetEndsTheCycle(m: Machine, n: Machine)
    requires Reset(m, n)
    ensures EndsCycle(m, n)
  {
    hide Frames, HeaderOf;
  }

  lemma ShipKeepsLosses(s: System, n: System, g: GenId)
    requires SyncShips(s, n) && g in n.log
    ensures g in s.log && n.log[g].lost == s.log[g].lost
  {
    hide Live, HeaderOf, Committed, SaltsOf;
  }

  /** Only the end of a cycle that was not shipped marks a loss, and it marks all that was shipped before as exact. */
  lemma StepLoses(s: System, n: System, g: GenId)
    requires Inv(s) && Step(s, n) && g in s.log && g in n.log && n.log[g].lost != s.log[g].lost
    ensures Loses(s, n, g) && n.log[g].lost == Some(|s.log[g].segs|)
  {
    assert s.backend.Keys == s.log.Keys;
    hide Inv, Step, SyncShips, CycleEnds, EndsCycle, Live, Replay;
    LogStep(s, n, g);
    if SyncShips(s, n) {
      ShipKeepsLosses(s, n, g);
    } else {
      CycleEndsLoss(s, g);
    }
  }

  lemma NewHistoriesAreWhole(s: System, n: System, g: GenId)
    requires s.backend.Keys == s.log.Keys && Step(s, n) && g !in s.log && g in n.log
    ensures n.log[g].lost.None?
  {
    CycleEndsKeepsShips(s, g);
    hide Write, Reset, Checkpoint, Live, CycleEnds, HeaderOf, Committed, SaltsOf;
  }

  /** Every loss has its cause: a cycle that ended with transactions the engine had not shipped. */
  lemma {:induction false} LossHasACause(trace: seq<System>, i: nat, g: GenId)
    requires IsRun(trace) && i < |trace| && g in trace[i].log && trace[i].log[g].lost.Some?
    ensures exists j: nat :: j < i && Loses(trace[j], trace[j + 1], g) && |trace[j].log[g].segs| == trace[i].log[g].lost.value
  {
    RunStart(trace);
    if i > 0 {
      ReachableInv(trace, i - 1);
      assert Step(trace[i - 1], trace[i - 1 + 1]);
      assert trace[i - 1].backend.Keys == trace[i - 1].log.Keys;
      hide IsRun, Step, Inv, Loses;
      if g !in trace[i - 1].log {
        NewHistoriesAreWhole(trace[i - 1], trace[i], g);
      } else if trace[i - 1].log[g].lost == trace[i].log[g].lost {
        LossHasACause(trace, i - 1, g);
      } else {
        StepLoses(trace[i - 1], trace[i], g);
        var j := i - 1;
        assert Loses(trace[j], trace[j + 1], g);
      }
    }
  }

  /**
   The end of a cycle costs the current generation nothing if and only if the transactions not shipped change nothing,
   which is if and only if the backend can rebuild the live database; and so when everything was shipped.
   */
  lemma LossIsExact(s: System, n: System, g: GenId)
    requires Inv(s) && s.t.generation == Some(g) && s.log[g].lost.None? && n.log == CycleEnds(s)
    ensures g in n.log
    ensures n.log[g].lost.None? <==> NothingUnshipped(s.m, s.t, s.backend[g], s.log[g])
    ensures n.log[g].lost.None? <==> Live(s.m) == Replay(s.backend[g].snapshot, s.log[g].segs)
    ensures AllShipped(s) ==> n.log[g].lost.None?
  {
    hide Base, NothingUnshipped, ShippedBase, InStep, Tracked, GenerationOk, Replay, Live, AllShipped;
    UnshippedIsTheDifference(s.m, s.t, s.backend[g], s.log[g], s.clock);
    if AllShipped(s) { ShippedIsLive(s); }
  }

  /**
   A checkpoint that leaves the WAL in place, even one that folded all of it into the main file, costs nothing by itself:
   the next ship makes the segments rebuild the live database.
   */
  lemma ShipAfterCheckpoint(s: System, n: System, shipped: System)
    requires Inv(s) && s.t.generation.Some? && s.log[s.t.generation.value].lost.None?
    requires Checkpoints(s, n) && n.m.wal == s.m.wal && SyncShips(n, shipped) && shipped.call.Shipped?
    ensures var g := s.t.generation.value;
            g in shipped.backend && g in shipped.log && Replay(shipped.backend[g].snapshot, shipped.log[g].segs) == Live(s.m)
  {
    var g := s.t.generation.value;
    CheckpointKeepsInv(s, n);
    SyncShipsKeepsInv(n, shipped);
    ShipKeepsLosses(n, shipped, g);
    assert shipped.backend.Keys == shipped.log.Keys;
    hide Base, GenerationOk, Tracked, InStep, ShippedBase, Checkpoint, AllShipped, Replay, Live, SyncShips;
    ShippedIsLive(shipped);
  }

  /** An empty WAL lies over no other database than the main file. */
  lemma EmptyWalBase(base: Db, m: Machine)
    requires m.wal == [] && m.backfilled == 0 && Fits(m.main)
    ensures Base(base, m) <==> base == m.main
  {
    EmptyWalIsFine(m);
    NoFrames();
  }

  /**
   Once a checkpoint has emptied the WAL, the segments of the current generation fit the files again if and only if they
   rebuilt the live database when it did.
   */
  lemma InStepAfterTruncate(s: System, n: System)
    requires Inv(s) && s.t.generation.Some? && Checkpoints(s, n) && n.m.wal == [] && n.m.backfilled == 0
    ensures var g := s.t.generation.value;
            Base(Replay(s.backend[g].snapshot, s.log[g].segs), n.m) <==> Live(s.m) == Replay(s.backend[g].snapshot, s.log[g].segs)
  {
    CheckpointKeepsInv(s, n);
    hide Inv, Base, Checkpoints, Replay;
    EmptyWalBase(Replay(s.backend[s.t.generation.value].snapshot, s.log[s.t.generation.value].segs), n.m);
    NoFrames();
  }

  /** The frames keep the size of the database, and write each page that is left as it was. */
  ghost predicate ChangesNothing(before: Db, more: seq<Frame>) {
    more != [] ==>
      && more[|more| - 1].dbSize as nat == before.size
      && forall p: nat | p in Written(more) && p <= before.size :: p in before.pages && before.pages[p] == Written(more)[p]
  }

  /** Transactions leave the database they lie over unchanged exactly when, page by page, they change nothing. */
  lemma UnshippedPages(base: Db, shipped: seq<Frame>, more: seq<Frame>)
    requires shipped == [] ==> Fits(base)
    ensures Overlay(base, shipped + more) == Overlay(base, shipped) <==> ChangesNothing(Overlay(base, shipped), more)
  {
    hide Written;
    var before, after := Overlay(base, shipped), Overlay(base, shipped + more);
    if more == [] {
      assert shipped + more == shipped;
    } else {
      assert (shipped + more)[|shipped + more| - 1] == more[|more| - 1];
      if after.size == before.size {
        forall p: nat | p <= before.size
          ensures SamePage(after, before, p) <==> (p in Written(more) ==> p in before.pages && before.pages[p] == Written(more)[p])
        {
          LaterPage(base, shipped, more, p);
        }
        SamePagesSameDb(after, before);
      }
    }
  }

  lemma LaterPage(base: Db, shipped: seq<Frame>, more: seq<Frame>, p: nat)
    requires more != [] && p <= Overlay(base, shipped).size == Overlay(base, shipped + more).size
    ensures var before, after := Overlay(base, shipped), Overlay(base, shipped + more);
            SamePage(after, before, p) <==> (p in Written(more) ==> p in before.pages && before.pages[p] == Written(more)[p])
  {
    hide Written;
    WrittenConcat(shipped, more);
    assert Written([]) == map[] by { NothingWritten(); }
  }

  lemma NothingWritten()
    ensures Written([]) == map[]
  {
  }

  lemma {:induction false} ReplayFits(db: Db, segs: seq<Seg>)
    requires Fits(db)
    ensures Fits(Replay(db, segs))
    decreases |segs|
  {
    hide Overlay, Frames, Rebuilt;
    if segs != [] {
      ReplayFits(db, segs[..GroupStart(segs)]);
      OverlayFits(Replay(db, segs[..GroupStart(segs)]), Frames(Rebuilt(segs[GroupStart(segs)..], 0)));
    }
  }

  /** The frames of the WAL that the current generation does not have. */
  function UnshippedFrames(s: System): seq<Frame>
    requires s.t.generation.Some? && Knows(s)
  {
    FramesAfter(Frames(s.m.wal), ShippedFrames(s.m, s.t, s.log[s.t.generation.value]))
  }

  function FramesAfter(all: seq<Frame>, sent: seq<Frame>): (more: seq<Frame>)
    ensures sent <= all ==> all == sent + more
  {
    if sent <= all then all[|sent|..] else []
  }

  lemma ShippedBaseFits(m: Machine, t: Tracker, st: Stored, h: History)
    requires GenerationOk(st, h)
    ensures Fits(ShippedBase(m, t, st, h))
  {
    ReplayFits(st.snapshot, h.segs);
    ReplayFits(st.snapshot, h.segs[..CycleStart(h.segs, t.walIndex)]);
    hide GenerationOk, Fits, Replay, SameCycle, CycleStart;
  }

  lemma UnshippedChangesNothing(m: Machine, t: Tracker, st: Stored, h: History, clock: int)
    requires GenerationOk(st, h) && Tracked(t, h, clock) && InStep(m, t, h)
    ensures NothingUnshipped(m, t, st, h) <==>
            ChangesNothing(Replay(st.snapshot, h.segs), FramesAfter(Frames(m.wal), ShippedFrames(m, t, h)))
  {
    hide GenerationOk, Tracked, InStep, ShippedBase, ShippedFrames, Replay, Overlay, Frames, ChangesNothing, Fits, HeaderOf, Committed;
    ShippedBaseFits(m, t, st, h);
    ReplayIsOverlay(m, t, st, h, clock);
    ShippedIsCommitted(m, t, h, clock);
    UnshippedPages(ShippedBase(m, t, st, h), ShippedFrames(m, t, h), FramesAfter(Frames(m.wal), ShippedFrames(m, t, h)));
  }

  /**
   The end of a cycle costs the current generation nothing if and only if each page that the unshipped transactions write
   already is, in the database the segments rebuild, as they leave it, and the size too.
   */
  lemma LossPageByPage(s: System, n: System, g: GenId)
    requires Inv(s) && s.t.generation == Some(g) && s.log[g].lost.None? && n.log == CycleEnds(s)
    ensures g in n.log
    ensures n.log[g].lost.None? <==> ChangesNothing(Replay(s.backend[g].snapshot, s.log[g].segs), UnshippedFrames(s))
  {
    hide Base, InStep, Tracked, ShippedBase, GenerationOk, Replay, ShippedFrames, ChangesNothing, CycleEnds, Frames;
    hide NothingUnshipped, Live, AllShipped;
    assert GenerationOk(s.backend[g], s.log[g]);
    LossIsExact(s, n, g);
    UnshippedChangesNothing(s.m, s.t, s.backend[g], s.log[g], s.clock);
  }

  /** Over a run in which the current generation has everything of a cycle when it ends, no generation loses anything. */
  lemma ShippingInTimeLosesNothing(trace: seq<System>, i: nat, g: GenId)
    requires IsRun(trace) && i < |trace| && g in trace[i].log
    requires forall j: nat | j < i && EndsCycle(trace[j].m, trace[j + 1].m) :: AllShipped(trace[j])
    ensures trace[i].log[g].lost.None?
  {
    if trace[i].log[g].lost.Some? {
      LossHasACause(trace, i, g);
      var j: nat :| j < i && Loses(trace[j], trace[j + 1], g) && |trace[j].log[g].segs| == trace[i].log[g].lost.value;
      ReachableInv(trace, j);
      hide IsRun, Inv, Live, Replay, AllShipped, EndsCycle;
      ShippedIsLive(trace[j]);
    }
  }

  // ------------------------------------------------------------ bookkeeping

  /** The segments of one index. */
  function WithIndex(segs: seq<Seg>, index: nat): seq<Seg> {
    if segs == [] then []
    else if segs[|segs| - 1].key.index == index then WithIndex(segs[..|segs| - 1], index) + [segs[|segs| - 1]]
    else WithIndex(segs[..|segs| - 1], index)
  }

  lemma {:induction false} WithIndexOfGroup(segs: seq<Seg>, g: nat, index: nat)
    requires g <= |segs|
    requires forall i | 0 <= i < |segs| :: segs[i].key.index == index <==> i >= g
    ensures WithIndex(segs, index) == segs[g..]
  {
    if g < |segs| {
      WithIndexOfGroup(segs[..|segs| - 1], g, index);
      assert segs[g..] == segs[..|segs| - 1][g..] + [segs[|segs| - 1]];
    } else if segs != [] {
      WithIndexOfGroup(segs[..|segs| - 1], g - 1, index);
    }
  }

  lemma OrderOfBeginnings(segs: seq<Seg>)
    requires InShipOrder(segs)
    ensures segs != [] ==> InShipOrder(segs[..|segs| - 1])
  {
  }

  lemma {:induction false} EachIndexIsOneCycle(segs: seq<Seg>, index: nat)
    requires InShipOrder(segs) && WellShipped(segs)
    ensures var group := WithIndex(segs, index);
            Contiguous(group, 0) && (group != [] ==> Committed(Bytes(group)) == |Bytes(group)|)
  {
    hide Committed, Bytes, InShipOrder;
    OrderOfBeginnings(segs);
    if segs != [] {
      var last := |segs| - 1;
      if segs[last].key.index == index {
        assert CycleWellShipped(segs[..last + 1]) && segs[..last + 1] == segs;
        GroupHoldsItsIndex(segs);
        WithIndexOfGroup(segs, GroupStart(segs), index);
      } else {
        assert forall k: nat | 0 < k <= last :: segs[..last][..k] == segs[..k];
        assert forall k: nat | 0 < k <= last :: CycleWellShipped(segs[..k]);
        EachIndexIsOneCycle(segs[..last], index);
      }
    }
  }

  /**
   Segment bookkeeping in every reachable state: the segments of each generation and index are contiguous from
   offset 0, Restore writes all of them (its gap test never fires), and together they are one WAL cycle cut at a
   commit; those of the index in progress end exactly at the tracked offset.
   */
  lemma SegmentsAreWholeCycles(s: System, g: GenId, index: nat)
    requires Inv(s) && g in s.backend
    ensures var group := WithIndex(s.log[g].segs, index);
            && Contiguous(group, 0) && Rebuilt(group, 0) == Bytes(group)
            && (group != [] ==> Committed(Bytes(group)) == |Bytes(group)|)
            && (s.t.generation == Some(g) && index == s.t.walIndex ==> |Bytes(group)| == s.t.walOffset)
  {
    assert GenerationOk(s.backend[g], s.log[g]);
    hide Base, InStep, HeaderOf, Committed, Replay, CycleWellShipped, Holds, ShippedBase;
    var segs := s.log[g].segs;
    EachIndexIsOneCycle(segs, index);
    RebuiltComplete(WithIndex(segs, index), 0);
    if s.t.generation == Some(g) && index == s.t.walIndex {
      if segs != [] && segs[|segs| - 1].key.index == index {
        GroupHoldsItsIndex(segs);
        WithIndexOfGroup(segs, GroupStart(segs), index);
      } else {
        LaterIndexIsEmpty(segs, index);
        WithIndexOfGroup(segs, |segs|, index);
      }
    }
  }

  lemma LaterIndexIsEmpty(segs: seq<Seg>, index: nat)
    requires InShipOrder(segs) && forall x | x in segs :: x.key.index <= index
    requires segs != [] ==> segs[|segs| - 1].key.index != index
    ensures forall i | 0 <= i < |segs| :: segs[i].key.index < index
  {
    forall i | 0 <= i < |segs| ensures segs[i].key.index < index {
      assert segs[|segs| - 1] in segs;
      assert i < |segs| - 1 ==> Before(segs[i].key, segs[|segs| - 1].key);
    }
  }

  // ------------------------------------------------------- missing segments

  /**
   A restore for which segment k is missing, and perhaps others of its index after it, but nothing of a later index is
   there, is the restore of the first k segments: what comes after the gap is not applied.
   */
  lemma RestoreUpToTheGap(db: Db, segs: seq<Seg>, k: nat, rest: seq<Seg>)
    requires InShipOrder(segs) && WellShipped(segs) && k < |segs|
    requires forall s | s in rest :: s in segs[k + 1..] && s.key.index == segs[k].key.index
    ensures Replay(db, segs[..k] + rest) == Replay(db, segs[..k])
  {
    hide Committed, Bytes, Frames, Overlay, WellShipped, InShipOrder;
    var index := segs[k].key.index;
    var a := CycleStart(segs[..k], index);
    if rest == [] {
      assert segs[..k] + rest == segs[..k];
    } else {
      GapGroup(segs, k, index);
      GroupStartOfRest(segs[..k], rest, index);
      assert (segs[..k] + rest)[..a] == segs[..a] && (segs[..k] + rest)[a..] == segs[a..k] + rest;
      GapStopsRebuilding(segs, a, k, rest);
      ReplayAtCycle(db, segs[..k], index);
      assert segs[..k][..a] == segs[..a] && segs[..k][a..] == segs[a..k];
    }
  }

  /** Up to the gap, the segments of its index are contiguous, and the missing one would come next. */
  lemma GapGroup(segs: seq<Seg>, k: nat, index: nat)
    requires InShipOrder(segs) && WellShipped(segs) && k < |segs| && index == segs[k].key.index
    ensures var a := CycleStart(segs[..k], index);
            Contiguous(segs[a..k], 0) && segs[k].key.offset == |Bytes(segs[a..k])|
            && (forall i | k < i < |segs| && segs[i].key.index == index :: segs[i].key.offset > segs[k].key.offset)
  {
    hide Committed, Contiguous, CycleStart, GroupStart;
    var a := CycleStart(segs[..k], index);
    assert segs[..k + 1] == segs[..k] + [segs[k]];
    GroupStartAppend(segs[..k], segs[k]);
    assert CycleWellShipped(segs[..k + 1]);
    hide WellShipped, CycleWellShipped, Bytes;
    assert segs[..k + 1][a..] == segs[a..k] + [segs[k]];
    ContiguousFront(segs[a..k], 0, segs[k]);
    forall i | k < i < |segs| && segs[i].key.index == index ensures segs[i].key.offset > segs[k].key.offset {
      assert Before(segs[k].key, segs[i].key);
    }
  }

  lemma {:induction false} ContiguousFront(run: seq<Seg>, start: nat, s: Seg)
    requires Contiguous(run + [s], start)
    ensures Contiguous(run, start) && s.key.offset == start + |Bytes(run)|
  {
    if run == [] {
      assert (run + [s])[0] == s;
    } else {
      assert (run + [s])[1..] == run[1..] + [s];
      ContiguousFront(run[1..], start + |run[0].data|, s);
    }
  }

  lemma GapStopsRebuilding(segs: seq<Seg>, a: nat, k: nat, rest: seq<Seg>)
    requires a <= k < |segs| && Contiguous(segs[a..k], 0) && segs[k].key.offset == |Bytes(segs[a..k])|
    requires forall i | k < i < |segs| && segs[i].key.index == segs[k].key.index :: segs[i].key.offset > segs[k].key.offset
    requires forall s | s in rest :: s in segs[k + 1..] && s.key.index == segs[k].key.index
    ensures Rebuilt(segs[a..k] + rest, 0) == Rebuilt(segs[a..k], 0)
  {
    if rest != [] {
      assert rest[0] in rest;
      var i :| 0 <= i < |segs| - k - 1 && segs[k + 1..][i] == rest[0];
      assert segs[k + 1 + i] == rest[0];
    }
    RebuiltStops(segs[a..k], 0, rest);
    RebuiltComplete(segs[a..k], 0);
  }

  // --------------------------------------------- a reset between scan and read

  /**
   Reading a WAL that was started again since the scan, up to the boundary of the scan: the segment holds some first
   transactions of the new cycle, and shipping the whole new cycle over it as the next index gives what that cycle alone
   would.
   */
  lemma ReadAfterReset(db: Db, wal: seq<Byte>, boundary: nat)
    requires boundary <= |wal| && GrowthIsWritten(Frames(wal))
    ensures var read := Frames(wal[..boundary]);
            && read <= Frames(wal) && (read != [] ==> read[|read| - 1].dbSize > 0)
            && Overlay(Overlay(db, read), Frames(wal)) == Overlay(db, Frames(wal))
  {
    var data := wal[..boundary];
    CommittedIsWithinFile(data);
    assert wal[..Committed(data)] == data[..Committed(data)];
    ScanExtends(data, wal);
    FramesEndInCommit(data);
    hide Frames, Committed, GrowthIsWritten;
    FoldAgrees(db, Frames(data));
    AgreesExtends(db, Overlay(db, Frames(data)), Frames(data), Frames(wal));
    OverlayOfAgreeing(db, Overlay(db, Frames(data)), Frames(wal));
  }

  /**
   Whatever bytes such a read adds to an index, the transactions shipped before stay its first ones; and they stay all of
   them when the bytes begin with a frame of another cycle.
   */
  lemma AnyReadKeepsShipped(run: seq<Seg>, data: seq<Byte>)
    requires Committed(Bytes(run)) == |Bytes(run)| && HeaderOf(Bytes(run)).Parsed?
    ensures Frames(Bytes(run)) <= Frames(Bytes(run) + data)
    ensures StartsOtherCycle(HeaderOf(Bytes(run)).header, data) ==> Frames(Bytes(run) + data) == Frames(Bytes(run))
  {
    hide Frames, Committed, Bytes, HeaderOf, StartsOtherCycle;
    AppendingNeverLowers(Bytes(run), data);
    if StartsOtherCycle(HeaderOf(Bytes(run)).header, data) { OtherSaltsAddNothing(Bytes(run), data); }
  }
}
