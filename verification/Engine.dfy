/**
 The continuous backup engine as a state machine: what sync, maybeCheckpoint, takeSnapshot and
 pruneLocked (backup.go) do to the engine's fields, the SQLite files and the backend, interleaved
 with SQLite's own steps.
 */
module Engine {
  import opened Wal
  import opened WalScan
  import opened Sqlite
  import opened Segments
  import opened Options

  /** A generation id; its creation time is part of the name. */
  datatype GenId = GenId(createdAt: int, random: nat)

  /** What a backend keeps of one generation. */
  datatype Stored = Stored(snapshot: Db, segs: map<SegKey, seq<Byte>>)

  type Backend = map<GenId, Stored>

  /** The tracking fields of backupManager. */
  datatype Tracker = Tracker(generation: Option<GenId>, walIndex: nat, walOffset: nat, salts: Salts)

  /**
   What was shipped to a generation, in order, and the committed database at each ship: `lives[0]` is the
   snapshot as copied, `lives[k]` the live database when segment k - 1 was shipped. `lost` is how many segments there
   were when a WAL cycle first ended with transactions that had not been shipped.
   */
  datatype History = History(segs: seq<Seg>, lives: seq<Db>, lost: Option<nat>)

  /**
   How far a call of the engine has got, while it holds its lock and writers go on: sync between its scan, with the
   boundary it found, and its checkpoint; takeSnapshot between its checkpoint and the end of its upload.
   */
  datatype Call = Idle | Shipped(committed: nat) | Compacted

  /** `log` and `clock` only record the past; the engine never reads them. */
  datatype System = System(m: Machine, t: Tracker, backend: Backend, log: map<GenId, History>, clock: int, call: Call)

  const NO_TRACKER := Tracker(None, 0, 0, Salts(0, 0))

  /** The current generation is one the backend and the history know. */
  predicate Knows(s: System) {
    s.t.generation.Some? ==> s.t.generation.value in s.backend && s.t.generation.value in s.log
  }

  // ------------------------------------------------------ what was shipped

  /** The segments of the index being shipped. */
  function CurrentCycle(h: History, index: nat): seq<Seg> {
    h.segs[CycleStart(h.segs, index)..]
  }

  /** What the segments before that index rebuild. */
  function CycleBase(st: Stored, h: History, index: nat): Db {
    Replay(st.snapshot, h.segs[..CycleStart(h.segs, index)])
  }

  /** The WAL still is the one whose beginning was shipped. */
  predicate SameCycle(m: Machine, t: Tracker) {
    t.walOffset > 0 && HeaderOf(m.wal).Parsed? && SaltsOf(m.wal) == t.salts
  }

  /** The database the WAL lies over, as the backend can rebuild it. */
  function ShippedBase(m: Machine, t: Tracker, st: Stored, h: History): Db {
    if SameCycle(m, t) then CycleBase(st, h, t.walIndex) else Replay(st.snapshot, h.segs)
  }

  /** The frames of the WAL that were shipped. */
  function ShippedFrames(m: Machine, t: Tracker, h: History): seq<Frame> {
    if SameCycle(m, t) then Frames(Bytes(CurrentCycle(h, t.walIndex))) else []
  }

  /** The WAL's transactions that were not shipped change nothing in the database that was. */
  predicate NothingUnshipped(m: Machine, t: Tracker, st: Stored, h: History) {
    Overlay(ShippedBase(m, t, st, h), Frames(m.wal)) == Overlay(ShippedBase(m, t, st, h), ShippedFrames(m, t, h))
  }

  /** The history once the WAL's cycle has ended: what was not shipped by then never will be. */
  function CycleEnds(s: System): map<GenId, History> {
    if s.t.generation.None? || !Knows(s) then s.log
    else
      var g := s.t.generation.value;
      var h := s.log[g];
      if h.lost.Some? || NothingUnshipped(s.m, s.t, s.backend[g], h) then s.log
      else s.log[g := h.(lost := Some(|h.segs|))]
  }

  /** Nothing committed is missing from the segments shipped so far. */
  predicate AllShipped(s: System) {
    if SameCycle(s.m, s.t) then s.t.walOffset == Committed(s.m.wal) else Frames(s.m.wal) == []
  }

  // ----------------------------------------------------------- SQLite steps

  /** SQLite at work on its own, in particular while a call of the engine is under way. */
  ghost predicate Writers(s: System, n: System) {
    || (Write(s.m, n.m) && n == s.(m := n.m))
    || (Reset(s.m, n.m) && n == s.(m := n.m, log := CycleEnds(s)))
  }

  /** A checkpoint by the engine. It ends the cycle if it empties the WAL. */
  ghost predicate Checkpoints(s: System, n: System) {
    && Checkpoint(s.m, n.m)
    && n == s.(m := n.m, log := if n.m.wal == s.m.wal then s.log else CycleEnds(s))
  }

  // ----------------------------------------------------------- engine steps

  /** A salt change means SQLite reset the WAL: the next index starts at offset 0. */
  function Rolled(t: Tracker, wal: seq<Byte>): Tracker
    requires HeaderOf(wal).Parsed?
  {
    if t.walOffset > 0 && t.salts != SaltsOf(wal) then t.(walIndex := t.walIndex + 1, walOffset := 0, salts := SaltsOf(wal))
    else if t.walOffset == 0 then t.(salts := SaltsOf(wal))
    else t
  }

  function NewSegment(s: System, now: int): Seg
    requires s.t.walOffset <= Committed(s.m.wal) <= |s.m.wal|
  {
    Seg(SegKey(s.t.walIndex, s.t.walOffset, now), s.m.wal[s.t.walOffset..Committed(s.m.wal)])
  }

  /** The committed bytes past the offset become one more stored segment. */
  function Ship(s: System, now: int): System
    requires s.t.generation.Some? && s.t.generation.value in s.backend && s.t.generation.value in s.log
    requires s.t.walOffset <= Committed(s.m.wal) <= |s.m.wal|
  {
    var g, seg := s.t.generation.value, NewSegment(s, now);
    var st, h := s.backend[g], s.log[g];
    s.(t := s.t.(walOffset := Committed(s.m.wal)),
       backend := s.backend[g := st.(segs := st.segs[seg.key := seg.data])],
       log := s.log[g := History(h.segs + [seg], h.lives + [Live(s.m)], h.lost)],
       clock := now)
  }

  /** sync up to its checkpoint: scan, roll over to a new index, ship. A failed segment write stores nothing. */
  ghost predicate SyncShips(s: System, n: System) {
    && s.call == Idle
    && if s.t.generation.None? || HeaderOf(s.m.wal).Rejected? then n == s
       else
         var r := s.(t := Rolled(s.t, s.m.wal));
         var committed := Committed(s.m.wal);
         if committed <= r.t.walOffset then n == r.(call := Shipped(committed))
         else
           n == r ||
           (Knows(r) && committed <= |s.m.wal| && s.clock <= n.clock && n == Ship(r, n.clock).(call := Shipped(committed)))
  }

  function NextIndex(t: Tracker): Tracker {
    t.(walIndex := t.walIndex + 1, walOffset := 0)
  }

  /**
   maybeCheckpoint, with the boundary the scan found: nothing below the threshold or with bytes of that scan still to
   ship. A new index only if the WAL file is empty afterwards; the statement may also report an error.
   */
  ghost predicate SyncCheckpoints(s: System, n: System, threshold: int) {
    && s.call.Shipped?
    && if s.call.committed < threshold || s.t.walOffset != s.call.committed then n == s.(call := Idle)
       else
         var k := s.(m := n.m, log := n.log);
         Checkpoints(s, k) && (n == k.(call := Idle) || (n.m.wal == [] && n == k.(call := Idle, t := NextIndex(s.t))))
  }

  /** takeSnapshot up to its copy: the checkpoint before it. */
  ghost predicate Compacts(s: System, n: System) {
    s.call == Idle && Checkpoints(s, n.(call := Idle)) && n.call == Compacted
  }

  /** The system once the copy of the main file is stored and a new generation is open. */
  function Opened(s: System, g: GenId): System {
    System(s.m, Tracker(Some(g), 0, 0, Salts(0, 0)), s.backend[g := Stored(s.m.main, map[])],
           s.log[g := History([], [s.m.main], None)], g.createdAt, Idle)
  }

  /** Deleting some of the generations older than the cutoff, never the current one. */
  ghost predicate Prune(s: System, n: System, cutoff: int) {
    exists gone: set<GenId> ::
      && (forall g | g in gone :: g in s.backend && Some(g) != s.t.generation && g.createdAt < cutoff)
      && n == s.(backend := s.backend - gone, log := s.log - gone)
  }

  /** The upload reports an error although the object was stored: a generation that the engine does not know of. */
  predicate Orphans(s: System, n: System, g: GenId) {
    && s.call == Compacted && g !in s.backend && s.clock <= g.createdAt
    && n == s.(call := Idle, backend := s.backend[g := Stored(s.m.main, map[])],
               log := s.log[g := History([], [s.m.main], None)], clock := g.createdAt)
  }

  /** takeSnapshot from its copy on: upload and prune. A failed upload keeps the old generation. */
  ghost predicate Opens(s: System, n: System, cutoff: int) {
    && s.call == Compacted
    && (n == s.(call := Idle)
        || (exists g: GenId :: Orphans(s, n, g))
        || exists g: GenId :: g !in s.backend && s.clock <= g.createdAt && Prune(Opened(s, g), n, cutoff))
  }

  /** Any step of the whole system. The engine process may also restart, losing its tracking fields. */
  ghost predicate Step(s: System, n: System) {
    || Writers(s, n)
    || SyncShips(s, n)
    || (exists threshold: int :: SyncCheckpoints(s, n, threshold))
    || Compacts(s, n)
    || (exists cutoff: int :: Opens(s, n, cutoff))
    || n == s.(t := NO_TRACKER, call := Idle)
    || (s.clock <= n.clock && n == s.(clock := n.clock))
  }

  // -------------------------------------------------------------- invariant

  /** How many ships of the generation are exact. */
  function Intact(h: History): nat {
    if h.lost.Some? then h.lost.value else |h.segs|
  }

  /** Replaying any prefix of what was shipped, up to the first loss, gives the database recorded with that ship. */
  ghost predicate GenerationOk(st: Stored, h: History) {
    && |h.lives| == |h.segs| + 1 && Intact(h) <= |h.segs| && Fits(st.snapshot)
    && InShipOrder(h.segs) && WellShipped(h.segs) && Holds(st.segs, h.segs)
    && forall k: nat | k <= Intact(h) :: Replay(st.snapshot, h.segs[..k]) == h.lives[k]
  }

  /** The tracker agrees with what it shipped. */
  ghost predicate Tracked(t: Tracker, h: History, clock: int) {
    var group := CurrentCycle(h, t.walIndex);
    && (forall x | x in h.segs :: x.key.index <= t.walIndex && x.key.createdAt <= clock)
    && Contiguous(group, 0) && |Bytes(group)| == t.walOffset
    && (group != [] ==> Committed(Bytes(group)) == t.walOffset && HeaderOf(Bytes(group)).Parsed? && SaltsOf(Bytes(group)) == t.salts)
  }

  /** How the WAL relates to what was shipped: the shipped bytes are its beginning, or belong to an ended cycle. */
  ghost predicate InStep(m: Machine, t: Tracker, h: History) {
    if SameCycle(m, t) then t.walOffset <= |m.wal| && m.wal[..t.walOffset] == Bytes(CurrentCycle(h, t.walIndex))
    else t.walOffset > 0 ==> t.salts in m.used
  }

  ghost predicate Inv(s: System) {
    && s.backend.Keys == s.log.Keys
    && (forall g | g in s.backend :: g.createdAt <= s.clock && GenerationOk(s.backend[g], s.log[g]))
    && (exists base :: Base(base, s.m))
    && (s.call.Shipped? ==> s.t.generation.Some?)
    && (s.t.generation.Some? ==>
          var g := s.t.generation.value;
          && g in s.backend
          && Tracked(s.t, s.log[g], s.clock)
          && InStep(s.m, s.t, s.log[g])
          && (s.log[g].lost.None? ==> Base(ShippedBase(s.m, s.t, s.backend[g], s.log[g]), s.m)))
  }
}
