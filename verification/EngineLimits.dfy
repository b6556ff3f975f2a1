/**
 Where the backup promises stop, by example and exactly: commits between the scan and the checkpoint of one sync,
 an upload that fails after the WAL was emptied, a restore to a moment before the first ship, and a missing index.
 */
module EngineLimits {
  import opened Wal
  import opened WalScan
  import opened Sqlite
  import opened Segments
  import opened Engine
  import opened Options
  import opened EngineProofs
  import opened EngineTheorems

  // ------------------------------------------------------------------- logs

  /** A WAL file of one cycle with these committed frames. */
  ghost predicate IsLog(w: seq<Byte>, salts: Salts, fs: seq<Frame>) {
    HeaderOf(w).Parsed? && SaltsOf(w) == salts && Frames(w) == fs
  }

  /** Such files exist, and grow as SQLite appends to them. */
  lemma LogsExist(salts: Salts, fs: seq<Frame>, more: seq<Frame>) returns (w: seq<Byte>, x: seq<Byte>)
    requires forall f | f in fs + more :: |f.data| == 512
    requires fs != [] ==> fs[|fs| - 1].dbSize > 0
    requires more != [] && more[|more| - 1].dbSize > 0
    ensures IsLog(w, salts, fs) && IsLog(x, salts, fs + more) && w <= x
  {
    hide Checksum, WordBE, BytesBE, EncodeFrames, CommittedFrames, ParseWALHeader, FrameOk;
    var h := NewHeader(true, 512, 0, salts.salt1, salts.salt2);
    w := EncodeWal(true, 512, 0, salts.salt1, salts.salt2, fs);
    x := EncodeWal(true, 512, 0, salts.salt1, salts.salt2, fs + more);
    assert forall f | f in fs :: f in fs + more;
    ScanInvertsWriting(true, 512, 0, salts.salt1, salts.salt2, fs, []);
    ScanInvertsWriting(true, 512, 0, salts.salt1, salts.salt2, fs + more, []);
    EncodedFramesGrow(h, h.cks, fs, more);
    assert w + [] == w && x + [] == x;
  }

  lemma LogFacts(w: seq<Byte>, salts: Salts, fs: seq<Frame>)
    requires IsLog(w, salts, fs)
    ensures HEADER_SIZE <= Committed(w) <= |w| && (fs != [] ==> Committed(w) > HEADER_SIZE)
    ensures fs != [] ==> fs[|fs| - 1].dbSize > 0
  {
    CommittedIsWithinFile(w);
    FramesTakeSpace(w);
    FramesEndInCommit(w);
  }

  lemma OneFrame(f: Frame)
    ensures Written([f]) == map[f.page as nat := f.data] && GrowthIsWritten([f])
  {
    assert [f][..0] == [];
    assert Written([f][..0]) == map[];
  }

  lemma SamePageTwice(f: Frame, e: Frame)
    requires e.page == f.page && e.dbSize == f.dbSize
    ensures Written([f, e]) == map[f.page as nat := e.data] && GrowthIsWritten([f, e])
  {
    OneFrame(f);
    assert [f, e][..1] == [f];
  }

  /** A main file no checkpoint has touched is the base of the WAL lying over it. */
  lemma UntouchedIsBase(db: Db, w: seq<Byte>, salts: Salts, fs: seq<Frame>)
    requires IsLog(w, salts, fs) && fs != [] && GrowthIsWritten(fs) && Fits(db)
    ensures Base(db, Machine(db, w, 0, {}))
  {
    hide HeaderOf, Committed, Frames, GrowthIsWritten, Overlay, Written;
    assert fs[0..] == fs;
    assert forall p: nat :: !LastBefore(fs, 0, p);
  }

  /** A checkpoint that nothing holds back may fold the whole WAL into the file and empty it. */
  lemma CompleteTruncate(m: Machine)
    requires m.backfilled <= |Frames(m.wal)| && Fits(m.main)
    ensures Checkpoint(m, Machine(Live(m), [], 0, EndCycle(m)))
  {
    var fs := Frames(m.wal);
    FramesEndInCommit(m.wal);
    FoldAgrees(m.main, fs);
    OverlayFits(m.main, fs);
    hide Frames, HeaderOf, Agrees;
    var mid := m.(main := Live(m), backfilled := |fs|);
    assert Backfill(m, mid);
    assert Truncate(mid, Machine(Live(m), [], 0, EndCycle(m)));
  }

  /** A step that only writes a log into an empty WAL file. */
  lemma NextLogIsLegal(s: System, next: seq<Byte>, salts: Salts, fs: seq<Frame>)
    requires s.m.wal == [] && IsLog(next, salts, fs) && salts !in s.m.used && GrowthIsWritten(fs)
    ensures Writers(s, s.(m := s.m.(wal := next)))
  {
    CommittedIsWithinFile(next);
    NoFrames();
    hide HeaderOf, Frames, Committed, GrowthIsWritten;
    assert Write(s.m, s.m.(wal := next));
  }

  // ---------------------------------------------------- ships after a loss

  lemma ShipReplays(s: System, now: int)
    requires Inv(s) && s.t.generation.Some? && s.t.walOffset == 0 && Knows(s)
    requires HeaderOf(s.m.wal).Parsed? && s.t.salts == SaltsOf(s.m.wal) && 0 < Committed(s.m.wal) <= |s.m.wal|
    ensures var g := s.t.generation.value;
            Replay(s.backend[g].snapshot, Ship(s, now).log[g].segs)
            == Overlay(Replay(s.backend[g].snapshot, s.log[g].segs), Frames(s.m.wal))
  {
    hide Base, HeaderOf, Committed, Frames, Replay, Overlay, GenerationOk, Live;
    var g := s.t.generation.value;
    ReplayIsOverlay(s.m, s.t, s.backend[g], s.log[g], s.clock);
    ShippedCycle(s.m, s.t, s.backend[g], s.log[g], s.clock, NewSegment(s, now));
  }

  /** What shipping a whole WAL as a new index makes of a generation. */
  lemma NextIndexReplays(s: System, now: int)
    requires Inv(s) && s.t.generation.Some? && s.t.walOffset == 0 && s.call == Idle && s.clock <= now
    requires HeaderOf(s.m.wal).Parsed?
    ensures var r := s.(t := Rolled(s.t, s.m.wal));
            && Committed(s.m.wal) <= |s.m.wal| && Knows(r)
            && SyncShips(s, Ship(r, now).(call := Shipped(Committed(s.m.wal)))) && AllShipped(Ship(r, now))
            && var g := s.t.generation.value;
               Replay(s.backend[g].snapshot, Ship(r, now).log[g].segs)
               == Overlay(Replay(s.backend[g].snapshot, s.log[g].segs), Frames(s.m.wal))
  {
    hide Inv, HeaderOf, Committed, Frames, Replay, Overlay, Live, AllShipped;
    RollKeepsInv(s);
    CommittedHasHeader(s.m.wal);
    var r := s.(t := Rolled(s.t, s.m.wal));
    ShipKeepsInv(r, now);
    ShipReplays(r, now);
  }

  // ------------------------------------------------------------ example states

  function OnePage(p: Page): Db {
    Db(1, map[1 := p])
  }

  function TwoPages(a: Page, b: Page): Db {
    Db(2, map[1 := a, 2 := b])
  }

  /** A generation whose snapshot holds page 1 as it was; a commit changing it sits unshipped in the WAL. */
  function Unshipped(g: GenId, orig: Page, wal: seq<Byte>): System {
    System(Machine(OnePage(orig), wal, 0, {}), Tracker(Some(g), 0, 0, Salts(0, 0)),
           map[g := Stored(OnePage(orig), map[])], map[g := History([], [OnePage(orig)], None)], g.createdAt, Idle)
  }

  lemma UnshippedIsFine(g: GenId, orig: Page, wal: seq<Byte>, salts: Salts, f: Frame)
    requires IsLog(wal, salts, [f])
    ensures Inv(Unshipped(g, orig, wal))
  {
    var s := Unshipped(g, orig, wal);
    OneFrame(f);
    UntouchedIsBase(s.m.main, wal, salts, [f]);
    hide GenerationOk, Tracked, InStep, Base, IsLog, ShippedBase;
    EmptyGenerationOk(s.m, g);
  }

  /** The example is reached from the start: a first backup of the file, then a commit. */
  lemma UnshippedIsReached(g: GenId, orig: Page, wal: seq<Byte>, salts: Salts, f: Frame) returns (run: seq<System>)
    requires IsLog(wal, salts, [f]) && g.createdAt >= 0
    ensures IsRun(run) && run[|run| - 1] == Unshipped(g, orig, wal)
  {
    hide IsLog, Frames, Committed, HeaderOf, Backfill, CycleEnds;
    var start := System(Machine(OnePage(orig), [], 0, {}), NO_TRACKER, map[], map[], 0, Idle);
    var compacted := start.(call := Compacted);
    var opening := Opened(compacted, g);
    assert Compacts(start, compacted);
    OpensAtOnce(compacted, g);
    OneFrame(f);
    NextLogIsLegal(opening, wal, salts, [f]);
    run := [start, compacted, opening, Unshipped(g, orig, wal)];
    assert Step(start, compacted) && Step(compacted, opening) && Step(opening, Unshipped(g, orig, wal)) by {
      hide Compacts, Opens, Writers, SyncShips;
    }
    hide Step;
    forall i | 0 <= i < |run| - 1 ensures Step(run[i], run[i + 1]) {
      assert i == 0 || i == 1 || i == 2;
    }
  }

  lemma SecondPage(first: Page, added: Page)
    ensures Overlay(OnePage(first), [Frame(2, 2, added)]) == TwoPages(first, added)
  {
    OneFrame(Frame(2, 2, added));
  }

  /** The files after a checkpoint that emptied the WAL. */
  function Emptied(s: System): System {
    s.(m := Machine(Live(s.m), [], 0, EndCycle(s.m)), log := CycleEnds(s))
  }

  lemma EmptiedByCheckpoint(s: System)
    requires Inv(s) && s.m.wal != []
    ensures Checkpoints(s, Emptied(s)) && Inv(Emptied(s))
  {
    var base :| Base(base, s.m);
    BaseIsWellFormed(base, s.m);
    CompleteTruncate(s.m);
    hide Inv, Live, CycleEnds, Checkpoint;
    CheckpointKeepsInv(s, Emptied(s));
  }

  // --------------------------------------------------------- failed uploads

  /** The database is `live`, a loss is marked at `lost` ships, and every latest restore from g returns `restored`. */
  ghost predicate RestoresInstead(s: System, g: GenId, lost: nat, live: Db, restored: Db) {
    && Live(s.m) == live != restored
    && g in s.log && s.log[g].lost == Some(lost)
    && forall db :: Restores(s.backend, None, g, db) <==> db == restored
  }

  /**
   A failed upload after a completed checkpoint loses the unshipped transaction: the next segments replay over a file
   that never had it. The latest restore mixes the old page 1 with the new page 2, although everything the engine could
   ship was shipped.
   */
  lemma FailedUploadLosesATransaction(
    g: GenId, orig: Page, changed: Page, added: Page, wal: seq<Byte>, salts: Salts, next: seq<Byte>, nextSalts: Salts)
    returns (compacted: System, failed: System, written: System, shipped: System)
    requires IsLog(wal, salts, [Frame(1, 1, changed)]) && IsLog(next, nextSalts, [Frame(2, 2, added)])
    requires salts != nextSalts && orig != changed
    ensures Inv(Unshipped(g, orig, wal)) && Compacts(Unshipped(g, orig, wal), compacted)
    ensures Opens(compacted, failed, 0) && Writers(failed, written) && SyncShips(written, shipped) && AllShipped(shipped)
    ensures RestoresInstead(shipped, g, 0, TwoPages(changed, added), TwoPages(orig, added))
  {
    hide Inv, Live, CycleEnds, IsLog, Replay, AllShipped, Writers, Ship, Overlay, Checkpoints, HeaderOf, Committed, Rolled, Restores;
    var s, f := Unshipped(g, orig, wal), Frame(1, 1, changed);
    UnshippedIsFine(g, orig, wal, salts, f);
    UnshippedChanges(g, orig, wal, salts, changed);
    EmptiedByCheckpoint(s);
    compacted := Emptied(s).(call := Compacted);
    failed := Emptied(s);
    assert failed == compacted.(call := Idle);
    shipped, written := ShipsOverIt(failed, g, 0, orig, changed, added, next, nextSalts);
  }

  lemma UnshippedChanges(g: GenId, orig: Page, wal: seq<Byte>, salts: Salts, changed: Page)
    requires IsLog(wal, salts, [Frame(1, 1, changed)]) && orig != changed
    ensures var s := Unshipped(g, orig, wal);
            && s.m.wal != [] && Live(s.m) == OnePage(changed) && EndCycle(s.m) == {salts}
            && CycleEnds(s) == map[g := History([], [OnePage(orig)], Some(0))]
            && Replay(s.backend[g].snapshot, s.log[g].segs) == OnePage(orig)
  {
    hide HeaderOf, Frames;
    var s, f := Unshipped(g, orig, wal), Frame(1, 1, changed);
    OneFrame(f);
    NoFrames();
    assert Overlay(OnePage(orig), [f]) == OnePage(changed);
    assert OnePage(orig).pages[1] != OnePage(changed).pages[1];
    assert ShippedFrames(s.m, s.t, s.log[g]) == [];
  }

  /** With one generation stored, the latest restore replays all of it. */
  lemma OnlyGeneration(s: System, g: GenId)
    requires Inv(s) && s.backend.Keys == {g} && g in s.log
    ensures forall db :: Restores(s.backend, None, g, db) <==> db == Replay(s.backend[g].snapshot, s.log[g].segs)
  {
    hide Inv, Restores, Replay;
    assert Chosen(s.backend.Keys, None, g);
    assert s.log[g].segs[..|s.log[g].segs|] == s.log[g].segs;
    forall db ensures Restores(s.backend, None, g, db) <==> db == Replay(s.backend[g].snapshot, s.log[g].segs) {
      RestoreIsReplay(s, None, g, db);
    }
  }

  /** The rest of both losing runs: another transaction is committed to a new WAL and shipped. */
  lemma ShipsOverIt(s: System, g: GenId, lost: nat, stale: Page, changed: Page, added: Page, next: seq<Byte>, nextSalts: Salts)
    returns (shipped: System, written: System)
    requires Inv(s) && s.t.generation == Some(g) && s.t.walOffset == 0 && s.call == Idle && s.m.wal == [] && nextSalts !in s.m.used
    requires s.m.main == OnePage(changed) && s.backend.Keys == {g} && g in s.log && s.log[g].lost == Some(lost)
    requires Replay(s.backend[g].snapshot, s.log[g].segs) == OnePage(stale) && stale != changed
    requires IsLog(next, nextSalts, [Frame(2, 2, added)])
    ensures Writers(s, written) && SyncShips(written, shipped) && AllShipped(shipped)
    ensures RestoresInstead(shipped, g, lost, TwoPages(changed, added), TwoPages(stale, added))
  {
    hide Inv, Replay, Writers, Overlay, HeaderOf, Committed, Frames, CycleEnds, Write, Reset, Restores;
    written := s.(m := s.m.(wal := next));
    OneFrame(Frame(2, 2, added));
    NextLogIsLegal(s, next, nextSalts, [Frame(2, 2, added)]);
    WritersKeepInv(s, written);
    NextIndexReplays(written, s.clock);
    var r := written.(t := Rolled(written.t, next));
    shipped := Ship(r, s.clock).(call := Shipped(Committed(next)));
    SyncShipsKeepsInv(written, shipped);
    SecondPage(stale, added);
    SecondPage(changed, added);
    assert TwoPages(stale, added).pages[1] != TwoPages(changed, added).pages[1];
    assert shipped.backend.Keys == {g};
    OnlyGeneration(shipped, g);
  }

  // ------------------------------------------ commits between scan and checkpoint

  /**
   A transaction committed between the scan of a sync and its TRUNCATE is folded into the main file and never shipped.
   The next ship puts its own pages over the ones the segments had before.
   */
  lemma CommitDuringSyncIsLost(
    g: GenId, orig: Page, first: Page, changed: Page, added: Page, threshold: int,
    wal: seq<Byte>, grown: seq<Byte>, salts: Salts, next: seq<Byte>, nextSalts: Salts)
    returns (scanned: System, committed: System, emptied: System, written: System, shipped: System)
    requires IsLog(wal, salts, [Frame(1, 1, first)]) && wal <= grown
    requires IsLog(grown, salts, [Frame(1, 1, first), Frame(1, 1, changed)]) && IsLog(next, nextSalts, [Frame(2, 2, added)])
    requires salts != nextSalts && first != changed && threshold <= Committed(wal)
    ensures Inv(Unshipped(g, orig, wal)) && SyncShips(Unshipped(g, orig, wal), scanned) && AllShipped(scanned)
    ensures Writers(scanned, committed) && SyncCheckpoints(committed, emptied, threshold)
    ensures Writers(emptied, written) && SyncShips(written, shipped) && AllShipped(shipped)
    ensures RestoresInstead(shipped, g, 1, TwoPages(changed, added), TwoPages(first, added))
  {
    hide *;
    scanned := FirstShip(g, orig, first, wal, salts);
    committed := scanned.(m := scanned.m.(wal := grown));
    GrownLogIsLegal(scanned, wal, grown, salts, first, changed);
    WritersKeepInv(scanned, committed);
    emptied := FoldsTheCommit(committed, g, orig, grown, salts, first, changed, threshold);
    shipped, written := ShipsOverIt(emptied, g, 1, first, changed, added, next, nextSalts);
  }

  /** The checkpoint of that sync folds the new commit into the file and starts the next index. */
  lemma FoldsTheCommit(
    s: System, g: GenId, orig: Page, grown: seq<Byte>, salts: Salts, first: Page, changed: Page, threshold: int)
    returns (n: System)
    requires Inv(s) && s.m == Machine(OnePage(orig), grown, 0, {})
    requires s.t.generation == Some(g) && g in s.backend && g in s.log && s.log[g].lost.None? && |s.log[g].segs| == 1
    requires s.call == Shipped(s.t.walOffset) && threshold <= s.t.walOffset
    requires Replay(s.backend[g].snapshot, s.log[g].segs) == OnePage(first) && first != changed
    requires IsLog(grown, salts, [Frame(1, 1, first), Frame(1, 1, changed)])
    ensures SyncCheckpoints(s, n, threshold) && Inv(n)
    ensures n.t.generation == Some(g) && n.t.walOffset == 0 && n.call == Idle && n.backend == s.backend
    ensures n.m.wal == [] && n.m.used == {salts} && n.m.main == OnePage(changed)
    ensures g in n.log && n.log[g].lost == Some(1) && n.log[g].segs == s.log[g].segs
  {
    hide Inv, Live, CycleEnds, IsLog, Replay, Checkpoints, SyncCheckpoints, EndCycle;
    GrownChanges(s, g, grown, salts, first, changed);
    EmptiedByCheckpoint(s);
    n := Emptied(s).(call := Idle, t := NextIndex(s.t));
    EmptiedIsNext(s, n, threshold);
    SyncCheckpointsKeepsInv(s, n, threshold);
  }

  lemma FirstShip(g: GenId, orig: Page, first: Page, wal: seq<Byte>, salts: Salts) returns (scanned: System)
    requires IsLog(wal, salts, [Frame(1, 1, first)])
    ensures var s := Unshipped(g, orig, wal);
            && Inv(s) && SyncShips(s, scanned) && AllShipped(scanned) && Inv(scanned)
            && scanned.m == Machine(OnePage(orig), wal, 0, {}) && scanned.t == Tracker(Some(g), 0, Committed(wal), salts)
            && scanned.call == Shipped(Committed(wal))
            && scanned.backend.Keys == {g} && g in scanned.log && |scanned.log[g].segs| == 1 && scanned.log[g].lost.None?
            && Replay(scanned.backend[g].snapshot, scanned.log[g].segs) == OnePage(first)
  {
    hide Inv, Live, Replay, HeaderOf, Committed, Frames, AllShipped, Overlay;
    var s := Unshipped(g, orig, wal);
    UnshippedIsFine(g, orig, wal, salts, Frame(1, 1, first));
    NextIndexReplays(s, s.clock);
    var r := s.(t := Rolled(s.t, wal));
    scanned := Ship(r, s.clock).(call := Shipped(Committed(wal)));
    SyncShipsKeepsInv(s, scanned);
    SnapshotAlone(g, orig, wal);
    OnePageOver(orig, first);
  }

  lemma SnapshotAlone(g: GenId, orig: Page, wal: seq<Byte>)
    ensures var s := Unshipped(g, orig, wal); Replay(s.backend[g].snapshot, s.log[g].segs) == OnePage(orig)
  {
  }

  lemma OnePageOver(orig: Page, p: Page)
    ensures Overlay(OnePage(orig), [Frame(1, 1, p)]) == OnePage(p)
  {
    OneFrame(Frame(1, 1, p));
  }

  lemma GrownLogIsLegal(s: System, wal: seq<Byte>, grown: seq<Byte>, salts: Salts, first: Page, changed: Page)
    requires s.m.wal == wal && wal <= grown && IsLog(wal, salts, [Frame(1, 1, first)])
    requires IsLog(grown, salts, [Frame(1, 1, first), Frame(1, 1, changed)])
    ensures Writers(s, s.(m := s.m.(wal := grown)))
  {
    hide HeaderOf, Frames, Committed;
    LogFacts(wal, salts, [Frame(1, 1, first)]);
    SamePageTwice(Frame(1, 1, first), Frame(1, 1, changed));
    assert grown[..Committed(wal)] == wal[..Committed(wal)];
  }

  /** The commit since the scan changes what was shipped. */
  lemma GrownChanges(s: System, g: GenId, grown: seq<Byte>, salts: Salts, first: Page, changed: Page)
    requires Inv(s) && s.m.main.size == 1 && s.m.main.pages.Keys == {1} && s.m.wal == grown && s.m.used == {}
    requires s.t.generation == Some(g) && g in s.log && s.log[g].lost.None? && |s.log[g].segs| == 1
    requires Replay(s.backend[g].snapshot, s.log[g].segs) == OnePage(first) && first != changed
    requires IsLog(grown, salts, [Frame(1, 1, first), Frame(1, 1, changed)])
    ensures grown != [] && Live(s.m) == OnePage(changed) && EndCycle(s.m) == {salts}
    ensures g in CycleEnds(s) && CycleEnds(s)[g].lost == Some(1) && CycleEnds(s)[g].segs == s.log[g].segs
  {
    hide Base, NothingUnshipped, ShippedBase, InStep, Tracked, GenerationOk, Replay, HeaderOf, Frames;
    SamePageTwice(Frame(1, 1, first), Frame(1, 1, changed));
    UnshippedIsTheDifference(s.m, s.t, s.backend[g], s.log[g], s.clock);
    assert Live(s.m) == OnePage(changed);
    assert OnePage(first).pages[1] != OnePage(changed).pages[1];
    NoFrames();
  }

  lemma EmptiedIsNext(s: System, n: System, threshold: int)
    requires Checkpoints(s, Emptied(s)) && s.call == Shipped(s.t.walOffset) && threshold <= s.t.walOffset
    requires n == Emptied(s).(call := Idle, t := NextIndex(s.t))
    ensures SyncCheckpoints(s, n, threshold)
  {
    hide Checkpoints, Live, CycleEnds;
    assert s.(m := n.m, log := n.log) == Emptied(s);
  }

  // ------------------------------------------------ restores before the first ship

  /** A restore to a moment before a generation's first ship returns the file as it was copied. */
  lemma RestoreBeforeFirstShip(s: System, at: Option<int>, g: GenId, db: Db)
    requires Inv(s) && Restores(s.backend, at, g, db)
    ensures g in s.log && (ShipsUsed(s.log[g].segs, at) == 0 ==> db == s.backend[g].snapshot)
  {
    hide Base, InStep, Tracked, ShippedBase, Replay, Restores;
    PointInTimeRestore(s, at, g, db);
    RestoredIsStored(s, at, g, db);
    FirstLifeIsSnapshot(s.backend[g], s.log[g]);
  }

  lemma RestoredIsStored(s: System, at: Option<int>, g: GenId, db: Db)
    requires Restores(s.backend, at, g, db)
    ensures g in s.backend
  {
    hide Replay;
  }

  /**
   When the copied file was left by a checkpoint that a reader at commit k held back, that restore shows the state of
   commit k if and only if the pages left out of the copy had, in the file before, the content they have at k.
   */
  lemma EarlyRestoreShowsCommit(s: System, at: Option<int>, g: GenId, db: Db, main: Db, fs: seq<Frame>, k: nat, size: nat)
    requires Inv(s) && Restores(s.backend, at, g, db) && g in s.log && ShipsUsed(s.log[g].segs, at) == 0
    requires 0 < k <= |fs| && g in s.backend && s.backend[g].snapshot == Db(size, HeldBack(main, fs, k))
    ensures Shows(db, Overlay(main, fs[..k])) <==>
            forall p: nat | LeftOut(fs, k, p) :: p in main.pages && main.pages[p] == Written(fs[..k])[p]
  {
    hide Inv, Restores, Shows, LeftOut, HeldBack, Overlay;
    RestoreBeforeFirstShip(s, at, g, db);
    HeldBackShowsCommit(main, fs, k, size);
  }

  /** The file shows the database after some transaction of the WAL, or before all of them. */
  ghost predicate ShowsCommit(base: Db, fs: seq<Frame>, file: Db) {
    exists k: nat :: k <= |fs| && (k > 0 ==> fs[k - 1].dbSize > 0) && Shows(file, Overlay(base, fs[..k]))
  }

  /** Two transactions: pages 1 and 2, then page 2 again. */
  function TwoCommits(x: Page, y: Page): seq<Frame> {
    [Frame(1, 0, x), Frame(2, 2, x), Frame(2, 2, y)]
  }

  lemma TwoCommitsWrite(x: Page, y: Page)
    ensures Written(TwoCommits(x, y)) == map[1 as nat := x, 2 := y]
    ensures Written(TwoCommits(x, y)[..2]) == map[1 as nat := x, 2 := x]
    ensures Written(TwoCommits(x, y)[2..]) == map[2 as nat := y]
    ensures GrowthIsWritten(TwoCommits(x, y)) && |TwoCommits(x, y)| == 3
  {
    var fs := TwoCommits(x, y);
    assert fs[..1][..0] == [] && fs[..2][..1] == fs[..1] && fs[..3] == fs;
    assert Written(fs[..1]) == map[1 as nat := x];
    OneFrame(Frame(2, 2, y));
    assert fs[2..] == [Frame(2, 2, y)];
  }

  /** A first backup about to be taken; readers still use the state after the first of two transactions. */
  function BeforeFirstBackup(orig: Page, wal: seq<Byte>): System {
    System(Machine(TwoPages(orig, orig), wal, 0, {}), NO_TRACKER, map[], map[], 0, Idle)
  }

  lemma CopiesFirstPage(orig: Page, x: Page, y: Page)
    ensures HeldBack(TwoPages(orig, orig), TwoCommits(x, y), 2) == TwoPages(x, orig).pages
  {
    TwoCommitsWrite(x, y);
    hide Written;
    var fs := TwoCommits(x, y);
    assert LastBefore(fs, 2, 1) && !LastBefore(fs, 2, 2);
  }

  /**
   A checkpoint held back between two commits copies page 1 and not page 2. The generation opened from that file is
   sound, and yet a restore to the moment it was opened returns the file as it is, which shows no committed state.
   */
  lemma RestoreOfAHalfCopiedFile(orig: Page, x: Page, y: Page, wal: seq<Byte>, salts: Salts, g: GenId)
    returns (compacted: System, opening: System, db: Db)
    requires IsLog(wal, salts, TwoCommits(x, y)) && orig != x && orig != y && g.createdAt >= 0
    ensures Initial(BeforeFirstBackup(orig, [])) && Writers(BeforeFirstBackup(orig, []), BeforeFirstBackup(orig, wal))
    ensures Compacts(BeforeFirstBackup(orig, wal), compacted) && Opens(compacted, opening, 0)
    ensures Inv(opening) && Restores(opening.backend, Some(g.createdAt), g, db)
    ensures db == TwoPages(x, orig) && !ShowsCommit(TwoPages(orig, orig), TwoCommits(x, y), db)
  {
    hide HeaderOf, Frames, Committed, TwoCommits, ShowsCommit, GrowthIsWritten, Overlay, Base, Backfill, CycleEnds, HeldBack, Inv;
    var s, base, fs := BeforeFirstBackup(orig, wal), TwoPages(orig, orig), TwoCommits(x, y);
    db := TwoPages(x, orig);
    TwoCommitsWrite(x, y);
    UntouchedIsBase(base, wal, salts, fs);
    NoBackupIsFine(s);
    NextLogIsLegal(BeforeFirstBackup(orig, []), wal, salts, fs);
    CopiesFirstPage(orig, x, y);
    HeldBackCheckpoint(s.m, 2, 2);
    compacted := s.(m := s.m.(main := db, backfilled := 2), call := Compacted);
    assert Backfill(s.m, compacted.m);
    assert Checkpoint(s.m, compacted.m);
    CompactsKeepsInv(s, compacted);
    opening := Opened(compacted, g);
    OpensAtOnce(compacted, g);
    OpensKeepsInv(compacted, opening, 0);
    FirstRestore(compacted, g);
    HalfCopiedShowsNoCommit(orig, x, y);
  }

  lemma NoBackupIsFine(s: System)
    requires Base(s.m.main, s.m) && s.t == NO_TRACKER && s.backend == map[] && s.log == map[] && s.call == Idle
    ensures Inv(s)
  {
    hide Base;
  }

  lemma OpensAtOnce(s: System, g: GenId)
    requires s.call == Compacted && s.backend == map[] && s.clock <= g.createdAt
    ensures Opens(s, Opened(s, g), 0)
  {
    var n := Opened(s, g);
    var none: set<GenId> := {};
    assert n == n.(backend := n.backend - none, log := n.log - none);
    assert Prune(n, n, 0);
  }

  lemma FirstRestore(s: System, g: GenId)
    requires s.backend == map[]
    ensures Restores(Opened(s, g).backend, Some(g.createdAt), g, s.m.main)
  {
    var backend := Opened(s, g).backend;
    assert backend.Keys == {g};
    assert IsListing([], backend[g].segs);
    assert Replay(s.m.main, Selected([], Some(g.createdAt))) == s.m.main;
  }

  lemma HalfCopiedShowsNoCommit(orig: Page, x: Page, y: Page)
    requires orig != x && orig != y
    ensures !ShowsCommit(TwoPages(orig, orig), TwoCommits(x, y), TwoPages(x, orig))
  {
    var base, half, fs := TwoPages(orig, orig), TwoPages(x, orig), TwoCommits(x, y);
    TwoCommitsWrite(x, y);
    hide Written;
    forall k: nat | k <= |fs| && (k > 0 ==> fs[k - 1].dbSize > 0)
      ensures !Shows(half, Overlay(base, fs[..k]))
    {
      var state := Overlay(base, fs[..k]);
      if k == 0 {
        assert !SamePage(half, state, 1);
      } else {
        assert k == 2 || fs[..k] == fs;
        assert !SamePage(half, state, 2);
      }
    }
  }

  // ---------------------------------------------------------- missing indexes

  lemma NextGroup(db: Db, front: seq<Seg>, group: seq<Seg>, index: nat)
    requires group != [] && forall s | s in group :: s.key.index == index
    requires front != [] ==> front[|front| - 1].key.index != index
    ensures Replay(db, front + group) == ApplyIndex(Replay(db, front), group)
  {
    hide ApplyIndex;
    GroupStartOfRest(front, group, index);
    assert (front + group)[..|front|] == front && (front + group)[|front|..] == group;
  }

  /**
   Restore applies a later index even when an earlier one is missing. The result is what it would have been if and only
   if every page that the later index does not write is the same with and without the missing one.
   */
  lemma MissingIndexIsExact(db: Db, front: seq<Seg>, gone: seq<Seg>, last: seq<Seg>, index: nat)
    requires gone != [] && last != [] && forall s | s in last :: s.key.index == index
    requires forall s | s in front + gone :: s.key.index != index
    ensures Replay(db, front + last) == Replay(db, front + gone + last) <==>
            SameBelow(Replay(db, front), Replay(db, front + gone), Frames(Rebuilt(last, 0)))
  {
    hide Replay, Overlay, Frames, Rebuilt, SameBelow;
    assert forall s | s in front :: s in front + gone;
    NextGroup(db, front, last, index);
    NextGroup(db, front + gone, last, index);
    OverlaysAreTheSame(Replay(db, front), Replay(db, front + gone), Frames(Rebuilt(last, 0)));
  }

  /**
   The second of two shipped cycles alone gives a database that was never live: neither the snapshot nor the one after
   either ship.
   */
  lemma MissingIndexMixes(orig: Page, first: Page, added: Page, w0: Seg, w1: Seg, salts0: Salts, salts1: Salts)
    requires IsLog(w0.data, salts0, [Frame(1, 1, first)]) && IsLog(w1.data, salts1, [Frame(2, 2, added)])
    requires w0.key.index < w1.key.index && w0.key.offset == w1.key.offset == 0 && orig != first
    ensures Replay(OnePage(orig), [w0]) == OnePage(first)
    ensures Replay(OnePage(orig), [w0, w1]) == TwoPages(first, added)
    ensures Replay(OnePage(orig), [w1]) == TwoPages(orig, added)
    ensures TwoPages(orig, added) != OnePage(orig) && TwoPages(orig, added) != OnePage(first)
    ensures TwoPages(orig, added) != TwoPages(first, added)
  {
    hide Overlay, Frames, HeaderOf, Replay, Rebuilt, GroupStart, SaltsOf;
    OneSegment(OnePage(orig), w0);
    OneSegment(OnePage(orig), w1);
    NextGroup(OnePage(orig), [w0], [w1], w1.key.index);
    assert [w0] + [w1] == [w0, w1];
    OneSegmentRebuilt(w1);
    OnePageOver(orig, first);
    SecondPage(orig, added);
    SecondPage(first, added);
    assert TwoPages(orig, added).pages[1] != TwoPages(first, added).pages[1];
  }

  lemma OneSegmentRebuilt(s: Seg)
    requires s.key.offset == 0
    ensures Rebuilt([s], 0) == s.data
  {
    assert [s][1..] == [] && Rebuilt([], |s.data|) == [];
  }

  lemma OneSegment(db: Db, s: Seg)
    requires s.key.offset == 0
    ensures Replay(db, [s]) == Overlay(db, Frames(s.data))
  {
    hide Overlay, Frames;
    OneSegmentRebuilt(s);
    assert GroupStart([s]) == 0 && [s][..0] == [] && [s][0..] == [s];
  }

  // ---------------------------------------------------------- the runs exist

  function BlankPage(b: Byte): Page {
    seq(512, _ => b)
  }

  lemma RunGoesOn(run: seq<System>, n: System) returns (longer: seq<System>)
    requires IsRun(run) && Step(run[|run| - 1], n)
    ensures IsRun(longer) && longer[|longer| - 1] == n
  {
    hide Step, Initial;
    longer := run + [n];
  }

  lemma EngineStep(s: System, n: System, threshold: int, cutoff: int)
    requires Writers(s, n) || SyncShips(s, n) || SyncCheckpoints(s, n, threshold) || Compacts(s, n) || Opens(s, n, cutoff)
    ensures Step(s, n)
  {
    hide Writers, SyncShips, SyncCheckpoints, Compacts, Opens;
  }

  /** The log files of the examples, of pages of 512 bytes. */
  lemma ExampleLogs(salts: Salts, nextSalts: Salts, first: Page, changed: Page, added: Page)
    returns (wal: seq<Byte>, grown: seq<Byte>, next: seq<Byte>)
    requires |first| == |changed| == |added| == 512
    ensures IsLog(wal, salts, [Frame(1, 1, first)]) && IsLog(grown, salts, [Frame(1, 1, first), Frame(1, 1, changed)])
    ensures IsLog(next, nextSalts, [Frame(2, 2, added)]) && wal <= grown
  {
    hide IsLog;
    wal, grown := LogsExist(salts, [Frame(1, 1, first)], [Frame(1, 1, changed)]);
    assert [Frame(1, 1, first)] + [Frame(1, 1, changed)] == [Frame(1, 1, first), Frame(1, 1, changed)];
    var empty;
    empty, next := LogsExist(nextSalts, [], [Frame(2, 2, added)]);
    assert [] + [Frame(2, 2, added)] == [Frame(2, 2, added)];
  }

  /** From a fresh start, with no step of the system failing, the latest restore can differ from the live database. */
  lemma SomeCommitIsLost(g: GenId, threshold: int) returns (run: seq<System>, live: Db, restored: Db)
    requires g.createdAt >= 0 && threshold <= HEADER_SIZE
    ensures IsRun(run) && AllShipped(run[|run| - 1]) && RestoresInstead(run[|run| - 1], g, 1, live, restored)
  {
    var orig, first, changed, added := BlankPage(0), BlankPage(1), BlankPage(2), BlankPage(3);
    assert first[0] != changed[0];
    hide *;
    var wal, grown, next := ExampleLogs(Salts(0, 0), Salts(1, 1), first, changed, added);
    LogFacts(wal, Salts(0, 0), [Frame(1, 1, first)]);
    run := UnshippedIsReached(g, orig, wal, Salts(0, 0), Frame(1, 1, first));
    var scanned, committed, emptied, written, shipped :=
      CommitDuringSyncIsLost(g, orig, first, changed, added, threshold, wal, grown, Salts(0, 0), next, Salts(1, 1));
    EngineStep(run[|run| - 1], scanned, 0, 0);
    EngineStep(scanned, committed, 0, 0);
    EngineStep(committed, emptied, threshold, 0);
    EngineStep(emptied, written, 0, 0);
    EngineStep(written, shipped, 0, 0);
    run := RunGoesOn(run, scanned);
    run := RunGoesOn(run, committed);
    run := RunGoesOn(run, emptied);
    run := RunGoesOn(run, written);
    run := RunGoesOn(run, shipped);
    live, restored := TwoPages(changed, added), TwoPages(first, added);
  }

  /** The same when a snapshot's upload fails after its checkpoint emptied the WAL. */
  lemma SomeFailedUploadLoses(g: GenId) returns (run: seq<System>, live: Db, restored: Db)
    requires g.createdAt >= 0
    ensures IsRun(run) && AllShipped(run[|run| - 1]) && RestoresInstead(run[|run| - 1], g, 0, live, restored)
  {
    var orig, changed, added := BlankPage(0), BlankPage(2), BlankPage(3);
    assert orig[0] != changed[0];
    hide *;
    var wal, grown, next := ExampleLogs(Salts(0, 0), Salts(1, 1), changed, changed, added);
    run := UnshippedIsReached(g, orig, wal, Salts(0, 0), Frame(1, 1, changed));
    var compacted, failed, written, shipped :=
      FailedUploadLosesATransaction(g, orig, changed, added, wal, Salts(0, 0), next, Salts(1, 1));
    EngineStep(run[|run| - 1], compacted, 0, 0);
    EngineStep(compacted, failed, 0, 0);
    EngineStep(failed, written, 0, 0);
    EngineStep(written, shipped, 0, 0);
    run := RunGoesOn(run, compacted);
    run := RunGoesOn(run, failed);
    run := RunGoesOn(run, written);
    run := RunGoesOn(run, shipped);
    live, restored := TwoPages(changed, added), TwoPages(orig, added);
  }
}
