/**
 The backup engine as the object it is: the methods of backupManager (backup.go) over its tracking fields, the
 SQLite files and the backend. What SQLite, the clock and the network do is passed in as outcomes; in particular `busy`,
 the states of the files that other writers lead through while a call is under way.
 */
module BackupManager {
  import opened Wal
  import opened WalScan
  import opened Sqlite
  import opened Segments
  import opened Engine
  import opened Options
  import opened EngineProofs
  import opened EngineTheorems
  import opened Restore
  import opened Retention

  /** What `PRAGMA wal_checkpoint(TRUNCATE)` did to the files, and whether it reported an error. */
  datatype CheckpointOutcome = CheckpointOutcome(after: Machine, failed: bool)

  /** What came of an upload: stored, not stored, or stored although an error was reported, as by a time-out. */
  datatype UploadOutcome = Uploaded | NotUploaded | UploadedUnnoticed

  /** SQLite works on its own from each state of the files to the next. */
  ghost predicate Busy(files: seq<Machine>) {
    files != [] && forall i | 0 <= i < |files| - 1 :: Environment(files[i], files[i + 1])
  }

  /** Writers take the system from s to n. */
  ghost predicate WhileBusy(s: System, n: System) {
    exists run: seq<System> :: run != [] && run[0] == s && run[|run| - 1] == n && IsBusyRun(run)
  }

  ghost predicate IsBusyRun(run: seq<System>) {
    forall i | 0 <= i < |run| - 1 :: Writers(run[i], run[i + 1])
  }

  /** The WAL is not the one whose beginning was shipped: SQLite started it again. */
  predicate NewCycle(s: System)
    requires HeaderOf(s.m.wal).Parsed?
  {
    s.t.walOffset > 0 && s.t.salts != SaltsOf(s.m.wal)
  }

  /** Where the bytes to ship begin in the WAL as it is: where shipping ended, or at 0 when the WAL is a new one. */
  function StartToShip(s: System): nat {
    if HeaderOf(s.m.wal).Rejected? || NewCycle(s) then 0 else s.t.walOffset
  }

  /** The index they belong to. */
  function IndexToShip(s: System): nat {
    if HeaderOf(s.m.wal).Parsed? && NewCycle(s) then s.t.walIndex + 1 else s.t.walIndex
  }

  /** There are committed bytes that the current generation does not have. */
  predicate HasMore(s: System) {
    s.t.generation.Some? && HeaderOf(s.m.wal).Parsed? && StartToShip(s) < Committed(s.m.wal) <= |s.m.wal|
  }

  /**
   What comes of the first part of sync, from s to n: it fails exactly when there is something to ship and it cannot be
   stored. Otherwise exactly that is stored, and the offset is the boundary of the scan.
   */
  predicate ShipOutcome(s: System, n: System, now: int, stored: bool, ok: bool, scan: Option<nat>) {
    && (ok <==> !HasMore(s) || stored)
    && scan == (if ok && s.t.generation.Some? && HeaderOf(s.m.wal).Parsed? then Some(Committed(s.m.wal)) else None)
    && (if HasMore(s) && stored
        then
          && n.t.walIndex == IndexToShip(s) && n.t.walOffset == Committed(s.m.wal) && n.clock == now
          && StoredOneMore(s.backend, n.backend, s.t.generation.value, SegKey(IndexToShip(s), StartToShip(s), now),
                           s.m.wal[StartToShip(s)..Committed(s.m.wal)])
        else
          && n.backend == s.backend && n.clock == s.clock
          && (if s.t.generation.Some? && HeaderOf(s.m.wal).Parsed?
              then n.t.walIndex == IndexToShip(s) && n.t.walOffset == StartToShip(s) else n.t == s.t))
  }

  lemma NothingToScan(s: System, now: int, stored: bool)
    requires s.call == Idle && (s.t.generation.None? || HeaderOf(s.m.wal).Rejected?)
    ensures SyncShips(s, s) && ShipOutcome(s, s, now, stored, true, None)
  {
    hide HeaderOf;
  }

  lemma RollStartsHere(s: System)
    requires HeaderOf(s.m.wal).Parsed?
    ensures var t := Rolled(s.t, s.m.wal);
            t.walOffset == StartToShip(s) && t.walIndex == IndexToShip(s) && t.generation == s.t.generation
  {
    hide HeaderOf, SaltsOf;
  }

  lemma NothingMore(s: System, now: int, stored: bool)
    requires Inv(s) && s.call == Idle && s.t.generation.Some? && HeaderOf(s.m.wal).Parsed?
    requires Committed(s.m.wal) <= Rolled(s.t, s.m.wal).walOffset
    ensures var n := s.(t := Rolled(s.t, s.m.wal), call := Shipped(Committed(s.m.wal)));
            ShipOutcome(s, n, now, stored, true, Some(Committed(s.m.wal))) && SyncShips(s, n) && Inv(n) && Rebuilds(n)
  {
    hide Inv, HeaderOf, Committed, Rolled, StartToShip, IndexToShip, Replay, Live, AllShipped;
    RollStartsHere(s);
    var n := s.(t := Rolled(s.t, s.m.wal), call := Shipped(Committed(s.m.wal)));
    SyncShipsKeepsInv(s, n);
    RebuildsLive(n);
  }

  lemma NotStored(s: System, now: int)
    requires Inv(s) && s.call == Idle && s.t.generation.Some? && HeaderOf(s.m.wal).Parsed?
    requires Rolled(s.t, s.m.wal).walOffset < Committed(s.m.wal) <= |s.m.wal|
    ensures var n := s.(t := Rolled(s.t, s.m.wal)); ShipOutcome(s, n, now, false, false, None) && SyncShips(s, n) && Inv(n)
  {
    hide Inv, HeaderOf, Committed, Rolled, StartToShip, IndexToShip;
    RollStartsHere(s);
    SyncShipsKeepsInv(s, s.(t := Rolled(s.t, s.m.wal)));
  }

  lemma StoredMore(s: System, now: int)
    requires Inv(s) && s.call == Idle && s.t.generation.Some? && HeaderOf(s.m.wal).Parsed? && s.clock <= now
    requires Rolled(s.t, s.m.wal).walOffset < Committed(s.m.wal) <= |s.m.wal|
    ensures var r := s.(t := Rolled(s.t, s.m.wal));
            && Knows(r)
            && var n := Ship(r, now).(call := Shipped(Committed(s.m.wal)));
               ShipOutcome(s, n, now, true, true, Some(Committed(s.m.wal))) && SyncShips(s, n) && Inv(n) && Rebuilds(n)
  {
    hide Inv, HeaderOf, Committed, Rolled, StartToShip, IndexToShip, Live, Replay, AllShipped;
    RollKeepsInv(s);
    RollStartsHere(s);
    var r := s.(t := Rolled(s.t, s.m.wal));
    ShipKeepsInv(r, now);
    ShipHasNewName(r, now);
    var n := Ship(r, now).(call := Shipped(Committed(s.m.wal)));
    SyncShipsKeepsInv(s, n);
    RebuildsLive(n);
  }

  lemma RolledInFields(t: Tracker, wal: seq<Byte>)
    requires HeaderOf(wal).Parsed?
    ensures var h := HeaderOf(wal).header;
            var rolled := t.walOffset > 0 && (h.salt1 != t.salts.salt1 || h.salt2 != t.salts.salt2);
            var offset := if rolled then 0 else t.walOffset;
            Rolled(t, wal) == Tracker(t.generation, if rolled then t.walIndex + 1 else t.walIndex, offset,
                                      if offset == 0 then Salts(h.salt1, h.salt2) else t.salts)
  {
    hide HeaderOf;
  }

  lemma ShipInFields(s: System, now: int)
    requires s.t.generation.Some? && Knows(s) && s.t.walOffset <= Committed(s.m.wal) <= |s.m.wal|
    ensures var g, key := s.t.generation.value, SegKey(s.t.walIndex, s.t.walOffset, now);
            var data, h := s.m.wal[s.t.walOffset..Committed(s.m.wal)], s.log[g];
            Ship(s, now) ==
            System(s.m, s.t.(walOffset := Committed(s.m.wal)),
                   s.backend[g := s.backend[g].(segs := s.backend[g].segs[key := data])],
                   s.log[g := History(h.segs + [Seg(key, data)], h.lives + [Live(s.m)], h.lost)], now, s.call)
  {
    hide Committed, Live;
  }

  /** While nothing is lost, the current generation rebuilds the live database. */
  ghost predicate Rebuilds(s: System) {
    s.t.generation.Some? ==>
      var g := s.t.generation.value;
      g in s.backend && g in s.log && (s.log[g].lost.None? ==> Replay(s.backend[g].snapshot, s.log[g].segs) == Live(s.m))
  }

  /** The WAL is big enough to be truncated, and all of it was shipped, as far as the scan knows. */
  predicate MayCheckpoint(s: System, threshold: int) {
    s.call.Shipped? && s.call.committed >= threshold && s.t.walOffset == s.call.committed
  }

  /** The backend has exactly one object more, under a name it did not have. */
  predicate StoredOneMore(before: Backend, after: Backend, g: GenId, key: SegKey, data: seq<Byte>) {
    && g in before && g in after && key !in before[g].segs
    && after.Keys == before.Keys && (forall x | x in before && x != g :: after[x] == before[x])
    && after[g].snapshot == before[g].snapshot && after[g].segs == before[g].segs[key := data]
  }

  /** The histories record the same ships. */
  predicate SameShips(a: map<GenId, History>, b: map<GenId, History>) {
    a.Keys == b.Keys && forall g | g in a :: (a[g].segs, a[g].lives) == (b[g].segs, b[g].lives)
  }

  lemma WritersKeepShips(s: System, n: System)
    requires Writers(s, n)
    ensures n == s.(m := n.m, log := n.log) && SameShips(s.log, n.log) && n.m.main == s.m.main
  {
    hide CycleEnds, Frames, Committed, HeaderOf, GrowthIsWritten;
    forall g | g in s.log ensures g in CycleEnds(s) && (CycleEnds(s)[g].segs, CycleEnds(s)[g].lives) == (s.log[g].segs, s.log[g].lives) {
      CycleEndsKeepsShips(s, g);
    }
    assert CycleEnds(s).Keys == s.log.Keys by { CycleKeys(s); }
  }

  lemma CycleKeys(s: System)
    ensures CycleEnds(s).Keys == s.log.Keys
  {
    hide NothingUnshipped;
  }

  /** Whatever writers do during a call, the system follows, and keeps its invariant. */
  lemma {:induction false} FollowWriters(s: System, files: seq<Machine>) returns (n: System)
    requires Inv(s) && Busy(files) && files[0] == s.m
    ensures WhileBusy(s, n) && Inv(n)
    ensures n == s.(m := files[|files| - 1], log := n.log) && SameShips(s.log, n.log) && n.m.main == s.m.main
    decreases |files|
  {
    hide Inv, Writers, Environment;
    if |files| == 1 {
      n := s;
      assert [s][0] == s && IsBusyRun([s]);
    } else {
      var last := |files| - 1;
      var before := FollowWriters(s, files[..last]);
      assert Environment(files[last - 1], files[last - 1 + 1]);
      n := OneWriter(before, files[last]);
      var run :| run != [] && run[0] == s && run[|run| - 1] == before && IsBusyRun(run);
      LongerRun(run, n);
    }
  }

  lemma LongerRun(run: seq<System>, n: System)
    requires run != [] && IsBusyRun(run) && Writers(run[|run| - 1], n)
    ensures WhileBusy(run[0], n)
  {
    hide Writers;
    var longer := run + [n];
    assert longer[0] == run[0] && longer[|longer| - 1] == n && IsBusyRun(longer);
  }

  lemma OneWriter(s: System, after: Machine) returns (n: System)
    requires Inv(s) && Environment(s.m, after)
    ensures Writers(s, n) && Inv(n) && n == s.(m := after, log := n.log) && SameShips(s.log, n.log) && n.m.main == s.m.main
  {
    hide Inv, Write, Reset, CycleEnds;
    n := if Write(s.m, after) then s.(m := after) else s.(m := after, log := CycleEnds(s));
    WritersKeepInv(s, n);
    WritersKeepShips(s, n);
  }

  class Manager {
    var files: Machine
    var backend: Backend
    var generation: Option<GenId>
    var walIndex: nat
    var walOffset: nat
    var salt1: Word
    var salt2: Word
    ghost var log: map<GenId, History>
    ghost var clock: int
    ghost var call: Call
    const checkpointThreshold: int
    const retention: int

    /** The object as a state of the system. */
    ghost function State(): System
      reads this
    {
      System(files, Tracker(generation, walIndex, walOffset, Salts(salt1, salt2)), backend, log, clock, call)
    }

    ghost predicate Valid()
      reads this
    {
      Inv(State())
    }

    constructor (files: Machine, backend: Backend, ghost log: map<GenId, History>, ghost clock: int, threshold: int, retention: int)
      requires Inv(System(files, NO_TRACKER, backend, log, clock, Idle))
      ensures Valid() && State() == System(files, NO_TRACKER, backend, log, clock, Idle)
      ensures checkpointThreshold == threshold && this.retention == retention
    {
      this.files, this.backend, this.log, this.clock, this.call := files, backend, log, clock, Idle;
      generation, walIndex, walOffset, salt1, salt2 := None, 0, 0, 0, 0;
      checkpointThreshold, this.retention := threshold, retention;
    }

    /**
     sync up to its checkpoint: ship the committed bytes past the offset. `scan` is the boundary found, if all went well.
     It fails exactly when there is something to ship and it is not stored; otherwise exactly that is one more object.
     */
    method ShipCommitted(now: int, stored: bool) returns (ok: bool, scan: Option<nat>)
      requires Valid() && call == Idle && clock <= now
      modifies this
      ensures Valid() && SyncShips(old(State()), State()) && files == old(files) && generation == old(generation)
      ensures call == if scan.Some? then Shipped(scan.value) else Idle
      ensures ShipOutcome(old(State()), State(), now, stored, ok, scan)
      ensures scan.Some? ==> Rebuilds(State())
    {
      hide Inv, Live, Frames, HeaderOf, Committed, Rebuilds, ShipOutcome, SyncShips, Ship, NewSegment, Rolled, SaltsOf;
      ghost var s := State();
      if generation.None? {
        NothingToScan(s, now, stored);
        return true, None;
      }
      var found := WalCommittedSize(files.wal);
      if found.NotExist? {
        NothingToScan(s, now, stored);
        return true, None;
      }
      CommittedIsWithinFile(files.wal);
      var hdr, committed := found.header, found.committed;
      if walOffset > 0 && (hdr.salt1 != salt1 || hdr.salt2 != salt2) {
        walIndex := walIndex + 1;
        walOffset := 0;
      }
      if walOffset == 0 {
        salt1, salt2 := hdr.salt1, hdr.salt2;
      }
      ghost var r := State();
      RolledInFields(s.t, s.m.wal);
      assert r == s.(t := Rolled(s.t, s.m.wal));
      if committed <= walOffset {
        call := Shipped(committed);
        NothingMore(s, now, stored);
        return true, Some(committed);
      }
      var start := walOffset;
      var data := files.wal[start..committed];
      if !stored {
        NotStored(s, now);
        return false, None;
      }
      StoredMore(s, now);
      ShipInFields(r, now);
      var g := generation.value;
      var key := SegKey(walIndex, start, now);
      backend := backend[g := backend[g].(segs := backend[g].segs[key := data])];
      log := log[g := History(log[g].segs + [Seg(key, data)], log[g].lives + [Live(files)], log[g].lost)];
      clock := now;
      walOffset := committed;
      call := Shipped(committed);
      assert State() == Ship(r, now).(call := Shipped(committed));
      return true, Some(committed);
    }

    /** TRUNCATE the WAL once it is big and fully shipped; the index moves on only if the file shrank to zero. */
    method MaybeCheckpoint(committed: nat, checkpoint: CheckpointOutcome) returns (ok: bool)
      requires Valid() && call == Shipped(committed) && Checkpoint(files, checkpoint.after)
      modifies this
      ensures Valid() && SyncCheckpoints(old(State()), State(), checkpointThreshold) && call == Idle
      ensures Live(files) == Live(old(files)) && (backend, generation) == old((backend, generation)) && SameShips(old(log), log)
      ensures committed < checkpointThreshold || old(walOffset) != committed ==>
                ok && files == old(files) && (walIndex, walOffset) == old((walIndex, walOffset))
      ensures committed >= checkpointThreshold && old(walOffset) == committed ==>
                && files == checkpoint.after && (ok <==> !checkpoint.failed)
                && (walIndex, walOffset) ==
                   if !checkpoint.failed && checkpoint.after.wal == [] then (old(walIndex) + 1, 0) else old((walIndex, walOffset))
      ensures (salt1, salt2) == old((salt1, salt2))
    {
      hide Inv, Live, Checkpoint, CycleEnds;
      ghost var s := State();
      if committed < checkpointThreshold || walOffset != committed {
        call := Idle;
        CallKeepsInv(s, Idle);
        return true;
      }
      files := checkpoint.after;
      log := if files.wal == s.m.wal then s.log else CycleEnds(s);
      CheckpointKeepsShips(s, State());
      call := Idle;
      assert s.(m := files, log := log) == State().(call := s.call);
      if checkpoint.failed || |files.wal| > 0 {
        SyncCheckpointsKeepsInv(s, State(), checkpointThreshold);
        return !checkpoint.failed;
      }
      walIndex := walIndex + 1;
      walOffset := 0;
      SyncCheckpointsKeepsInv(s, State(), checkpointThreshold);
      return true;
    }

    /**
     sync: ship, and then checkpoint when the WAL has grown enough, with the boundary of the scan, whatever writers did
     meanwhile. What is stored then rebuilds the database that was live at the scan.
     */
    method Sync(now: int, stored: bool, busy: seq<Machine>, checkpoint: CheckpointOutcome)
      returns (ok: bool, ghost scanned: System, ghost resumed: System)
      requires Valid() && call == Idle && clock <= now
      requires Busy(busy) && busy[0] == files && Checkpoint(busy[|busy| - 1], checkpoint.after)
      modifies this
      ensures Valid() && call == Idle && generation == old(generation)
      ensures SyncShips(old(State()), scanned) && scanned.m == old(files)
      ensures ShipOutcome(old(State()), scanned, now, stored, !HasMore(old(State())) || stored,
                          if scanned.call.Shipped? then Some(scanned.call.committed) else None)
      ensures if scanned.call == Idle then State() == scanned
              else
                && WhileBusy(scanned, resumed) && SyncCheckpoints(resumed, State(), checkpointThreshold)
                && files == if MayCheckpoint(resumed, checkpointThreshold) then checkpoint.after else busy[|busy| - 1]
      ensures backend == scanned.backend
      ensures scanned.call.Shipped? ==>
                (walIndex, walOffset) ==
                if MayCheckpoint(resumed, checkpointThreshold) && !checkpoint.failed && checkpoint.after.wal == []
                then (scanned.t.walIndex + 1, 0) else (scanned.t.walIndex, scanned.t.walOffset)
      ensures ok <==>
                && (HasMore(old(State())) ==> stored)
                && !(scanned.call.Shipped? && MayCheckpoint(resumed, checkpointThreshold) && checkpoint.failed)
      ensures scanned.call == Idle || Live(files) == Live(busy[|busy| - 1])
      ensures ok && generation.Some? && HeaderOf(old(files).wal).Parsed?
              && generation.value in scanned.log && scanned.log[generation.value].lost.None? ==>
                var g := generation.value;
                g in backend && g in log && Replay(backend[g].snapshot, log[g].segs) == Live(old(files))
    {
      hide Inv, Live, HeaderOf, Checkpoint, Replay, SyncShips, SyncCheckpoints, WhileBusy, HasMore, Committed;
      var scan;
      ok, scan := ShipCommitted(now, stored);
      scanned := State();
      resumed := scanned;
      if scan.None? {
        return;
      }
      resumed := FollowWriters(scanned, busy);
      files, log := busy[|busy| - 1], resumed.log;
      assert State() == resumed;
      ok := MaybeCheckpoint(scan.value, checkpoint);
    }

    /** takeSnapshot up to its copy of the main file. */
    method Compact(checkpoint: CheckpointOutcome)
      requires Valid() && call == Idle && Checkpoint(files, checkpoint.after)
      modifies this`files, this`log, this`call
      ensures Valid() && Compacts(old(State()), State()) && files == checkpoint.after
      ensures call == Compacted && backend == old(backend) && clock == old(clock)
      ensures Live(files) == Live(old(files)) && SameShips(old(log), log)
      ensures FullyBackfilled(files) ==> files.main == Live(files)
    {
      hide Inv, Live, CycleEnds, Checkpoint;
      ghost var s := State();
      files := checkpoint.after;
      log := if files.wal == s.m.wal then s.log else CycleEnds(s);
      assert Checkpoints(s, State());
      CheckpointKeepsShips(s, State());
      call := Compacted;
      assert s.call == Idle && State().(call := Idle) == s.(m := files, log := log);
      CompactsKeepsInv(s, State());
      LiveWhenBackfilled(State());
    }

    /** takeSnapshot from its copy on: upload what was copied, reset the tracking, prune. */
    method Open(raw: Db, now: int, random: nat, upload: UploadOutcome, listed: bool, undeletable: set<GenId>) returns (ok: bool)
      requires Valid() && call == Compacted && clock <= now && raw == files.main && GenId(now, random) !in backend
      modifies this
      ensures Valid() && Opens(old(State()), State(), now - retention) && call == Idle && files == old(files) && ok == upload.Uploaded?
      ensures !ok ==> generation == old(generation)
      ensures !ok ==> backend == if upload.NotUploaded? then old(backend) else old(backend)[GenId(now, random) := Stored(raw, map[])]
      ensures ok ==> generation == Some(GenId(now, random)) && GenId(now, random) in backend && GenId(now, random) in log
      ensures ok ==> backend[GenId(now, random)] == Stored(raw, map[]) && log[GenId(now, random)] == History([], [raw], None)
      ensures ok ==> (walIndex, walOffset, salt1, salt2) == (0, 0, 0, 0)
      ensures !ok ==> (walIndex, walOffset, salt1, salt2) == old((walIndex, walOffset, salt1, salt2))
      ensures ok ==> OldOnesGone(old(backend), backend, GenId(now, random), now - retention, listed && retention > 0, undeletable)
    {
      hide Inv, Opens, Opened, Prune, Orphans, OldOnesGone, PrunedTo, Kept, Prunable;
      ghost var s := State();
      call := Idle;
      if upload.NotUploaded? {
        NothingOpened(s, now - retention);
        return false;
      }
      var g := GenId(now, random);
      backend := backend[g := Stored(raw, map[])];
      log := log[g := History([], [raw], None)];
      clock := now;
      if upload.UploadedUnnoticed? {
        StoredUnnoticed(s, State(), g, now - retention);
        return false;
      }
      generation, walIndex, walOffset, salt1, salt2 := Some(g), 0, 0, 0, 0;
      OpenedInFields(s, g);
      assert State() == Opened(s, g);
      OpenedKeepsInv(s, g);
      PruneLocked(now, listed, undeletable);
      GoneBesidesNew(s.backend, g, Stored(raw, map[]), backend, now - retention, listed && retention > 0, undeletable);
      OpenedAndPruned(s, State(), g, now - retention);
      return true;
    }

    /**
     takeSnapshot: open a new generation. Checkpoint, copy the main file, upload it while writers go on, reset the
     tracking, prune. A failed upload leaves the old generation current, even if the object was stored.
     */
    method TakeSnapshot(now: int, random: nat, upload: UploadOutcome, checkpoint: CheckpointOutcome, busy: seq<Machine>,
                        listed: bool, undeletable: set<GenId>)
      returns (ok: bool, ghost compacted: System, ghost resumed: System)
      requires Valid() && call == Idle && clock <= now
      requires Checkpoint(files, checkpoint.after) && Busy(busy) && busy[0] == checkpoint.after
      requires GenId(now, random) !in backend
      modifies this
      ensures Valid() && call == Idle && ok == upload.Uploaded?
      ensures Compacts(old(State()), compacted) && WhileBusy(compacted, resumed) && Opens(resumed, State(), now - retention)
      ensures files == busy[|busy| - 1]
      ensures !ok ==> generation == old(generation)
      ensures !ok ==>
                backend == if upload.NotUploaded? then old(backend)
                           else old(backend)[GenId(now, random) := Stored(checkpoint.after.main, map[])]
      ensures ok ==> generation == Some(GenId(now, random)) && GenId(now, random) in backend && GenId(now, random) in log
      ensures ok ==> backend[GenId(now, random)] == Stored(checkpoint.after.main, map[])
      ensures ok ==> (walIndex, walOffset, salt1, salt2) == (0, 0, 0, 0)
      ensures !ok ==> (walIndex, walOffset, salt1, salt2) == old((walIndex, walOffset, salt1, salt2))
      ensures ok ==> OldOnesGone(old(backend), backend, GenId(now, random), now - retention, listed && retention > 0, undeletable)
      ensures ok ==> log[GenId(now, random)] == History([], [checkpoint.after.main], None)
      ensures ok && FullyBackfilled(checkpoint.after) ==> backend[GenId(now, random)].snapshot == Live(old(files))
    {
      hide Inv, Live, Checkpoint, WhileBusy, Compacts, Opens, FullyBackfilled;
      Compact(checkpoint);
      compacted := State();
      var raw := files.main;
      resumed := FollowWriters(compacted, busy);
      files, log := busy[|busy| - 1], resumed.log;
      assert State() == resumed;
      ok := Open(raw, now, random, upload, listed, undeletable);
    }

    /** Delete the generations older than the retention period, except the current one. */
    method PruneLocked(now: int, listed: bool, undeletable: set<GenId>)
      requires Valid() && generation.Some?
      modifies this`backend, this`log
      ensures Prune(old(State()), State(), now - retention)
      ensures PrunedTo(old(backend).Keys, backend.Keys, generation.value, now - retention)
      ensures listed && retention > 0 ==>
                backend.Keys == old(backend).Keys - set g | g in old(backend) && Prunable(g, generation.value, now - retention, undeletable)
      ensures listed && retention > 0 && undeletable == {} ==> backend.Keys == Kept(old(backend).Keys, generation.value, now - retention)
      ensures !listed || retention <= 0 ==> backend == old(backend)
      ensures OldOnesGone(old(backend), backend, generation.value, now - retention, listed && retention > 0, undeletable)
    {
      hide Inv, Prune, Kept;
      ghost var gone: set<GenId> := {};
      ghost var s := State();
      PrunedNothing(s, now - retention);
      KeptIsThere(s.backend.Keys, generation.value, now - retention, {});
      if retention <= 0 || !listed {
        CurrentIsThere(s);
        return;
      }
      var cutoff := now - retention;
      var gens := SortGenerations(backend.Keys);
      for i := 0 to |gens|
        invariant gone == set k | 0 <= k < i && Prunable(gens[k], generation.value, cutoff, undeletable) :: gens[k]
        invariant backend == s.backend - gone && log == s.log - gone
      {
        var g := gens[i];
        if Prunable(g, generation.value, cutoff, undeletable) {
          gone := gone + {g};
          backend := backend - {g};
          log := log - {g};
          assert backend == s.backend - gone && log == s.log - gone;
        }
      }
      GoneArePruned(s, gens, gone, cutoff, undeletable);
      KeptIsThere(s.backend.Keys, generation.value, cutoff, gone);
      CurrentIsThere(s);
    }
  }

  lemma CurrentIsThere(s: System)
    requires Inv(s) && s.t.generation.Some?
    ensures s.t.generation.value in s.backend
  {
  }

  lemma OpenedInFields(s: System, g: GenId)
    ensures Opened(s, g) == System(s.m, Tracker(Some(g), 0, 0, Salts(0, 0)), s.backend[g := Stored(s.m.main, map[])],
                                   s.log[g := History([], [s.m.main], None)], g.createdAt, Idle)
  {
  }

  lemma NothingOpened(s: System, cutoff: int)
    requires Inv(s) && s.call == Compacted
    ensures Opens(s, s.(call := Idle), cutoff) && Inv(s.(call := Idle))
  {
    OpensKeepsInv(s, s.(call := Idle), cutoff);
  }

  lemma StoredUnnoticed(s: System, n: System, g: GenId, cutoff: int)
    requires Inv(s) && s.call == Compacted && g !in s.backend && s.clock <= g.createdAt
    requires n == s.(call := Idle, backend := s.backend[g := Stored(s.m.main, map[])],
                     log := s.log[g := History([], [s.m.main], None)], clock := g.createdAt)
    ensures Opens(s, n, cutoff) && Inv(n)
  {
    hide Inv;
    assert Orphans(s, n, g);
    OpensKeepsInv(s, n, cutoff);
  }

  lemma OpenedAndPruned(s: System, n: System, g: GenId, cutoff: int)
    requires Inv(s) && s.call == Compacted && g !in s.backend && s.clock <= g.createdAt && Prune(Opened(s, g), n, cutoff)
    ensures Opens(s, n, cutoff) && Inv(n)
    ensures g in n.backend && n.backend[g] == Stored(s.m.main, map[]) && g in n.log && n.log[g] == History([], [s.m.main], None)
    ensures n.t == Tracker(Some(g), 0, 0, Salts(0, 0)) && n.m == s.m && n.call == Idle
  {
    hide Inv;
    OpensKeepsInv(s, n, cutoff);
  }

  /** A generation added before the prune. */
  lemma GoneBesidesNew(before: Backend, g: GenId, st: Stored, after: Backend, cutoff: int, prunes: bool, undeletable: set<GenId>)
    requires g !in before && OldOnesGone(before[g := st], after, g, cutoff, prunes, undeletable)
    ensures OldOnesGone(before, after, g, cutoff, prunes, undeletable)
  {
    forall x | x in after && x != g ensures x in before && after[x] == before[x] {
      assert x in before[g := st];
    }
    forall x | x in before && x != g ensures x in after <==> !prunes || x.createdAt >= cutoff || x in undeletable {
      assert x in before[g := st];
    }
  }

  /** The generations pruneLocked gets rid of. */
  predicate Prunable(g: GenId, current: GenId, cutoff: int, undeletable: set<GenId>) {
    g != current && g.createdAt < cutoff && g !in undeletable
  }

  /** Besides the new generation, exactly those remain that are not old, or could not be deleted, or all without a prune. */
  predicate OldOnesGone(before: Backend, after: Backend, g: GenId, cutoff: int, prunes: bool,
                        undeletable: set<GenId>) {
    && g in after
    && (forall x | x in after && x != g :: x in before && after[x] == before[x])
    && (forall x | x in before && x != g :: x in after <==> !prunes || x.createdAt >= cutoff || x in undeletable)
  }

  lemma GoneArePruned(s: System, gens: seq<GenId>, gone: set<GenId>, cutoff: int, undeletable: set<GenId>)
    requires s.t.generation.Some? && forall g :: g in gens <==> g in s.backend
    requires gone == set k | 0 <= k < |gens| && Prunable(gens[k], s.t.generation.value, cutoff, undeletable) :: gens[k]
    ensures Prune(s, s.(backend := s.backend - gone, log := s.log - gone), cutoff)
    ensures gone == set g | g in s.backend && Prunable(g, s.t.generation.value, cutoff, undeletable)
  {
    assert forall g | g in gone :: g in gens;
  }

  lemma KeptIsThere(gens: set<GenId>, current: GenId, cutoff: int, gone: set<GenId>)
    requires forall g | g in gone :: Prunable(g, current, cutoff, {})
    ensures PrunedTo(gens, gens - gone, current, cutoff)
    ensures (gone == set g | g in gens && Prunable(g, current, cutoff, {})) ==> gens - gone == Kept(gens, current, cutoff)
  {
  }

  lemma CheckpointKeepsShips(s: System, n: System)
    requires Checkpoints(s, n)
    ensures SameShips(s.log, n.log)
  {
    hide CycleEnds, Checkpoint;
    CycleKeys(s);
    forall g | g in s.log ensures (CycleEnds(s)[g].segs, CycleEnds(s)[g].lives) == (s.log[g].segs, s.log[g].lives) {
      CycleEndsKeepsShips(s, g);
    }
  }

  /** No two ships of a generation use one name. */
  lemma ShipHasNewName(s: System, now: int)
    requires Inv(s) && s.t.generation.Some? && HeaderOf(s.m.wal).Parsed? && s.t.salts == SaltsOf(s.m.wal)
    requires s.t.walOffset < Committed(s.m.wal) <= |s.m.wal| && s.clock <= now && Knows(s)
    ensures SegKey(s.t.walIndex, s.t.walOffset, now) !in s.backend[s.t.generation.value].segs
  {
    var g := s.t.generation.value;
    ShipKeepsInv(s, now);
    assert GenerationOk(s.backend[g], s.log[g]) && GenerationOk(Ship(s, now).backend[g], Ship(s, now).log[g]);
    hide Inv, Replay, Live, WellShipped, HeaderOf, Committed;
    NewNameIsNew(s.backend[g].segs, s.log[g].segs, NewSegment(s, now));
  }

  lemma NewNameIsNew(stored: map<SegKey, seq<Byte>>, segs: seq<Seg>, s: Seg)
    requires Holds(stored, segs) && InShipOrder(segs + [s])
    ensures s.key !in stored
  {
    forall x | x in segs ensures Before(x.key, s.key) {
      var i :| 0 <= i < |segs| && segs[i] == x;
      assert (segs + [s])[i] == x && (segs + [s])[|segs|] == s;
    }
  }

  /** With nothing left to ship and nothing lost, the shipped segments rebuild the live database. */
  lemma RebuildsLive(s: System)
    requires Inv(s) && s.t.generation.Some? && AllShipped(s)
    ensures Rebuilds(s)
  {
    hide Base, Tracked, InStep, GenerationOk, ShippedBase, Replay, Live, AllShipped;
    if s.log[s.t.generation.value].lost.None? { ShippedIsLive(s); }
  }

  lemma PrunedNothing(s: System, cutoff: int)
    ensures Prune(s, s, cutoff)
  {
    var gone: set<GenId> := {};
    assert s == s.(backend := s.backend - gone, log := s.log - gone);
  }

  lemma LiveWhenBackfilled(s: System)
    requires Inv(s)
    ensures FullyBackfilled(s.m) ==> Live(s.m) == s.m.main
  {
    var base :| Base(base, s.m);
    CompleteFileIsLive(base, s.m);
  }
}
