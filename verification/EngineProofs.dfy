/**
 Every step of the backup system keeps its invariant, and the invariant makes Restore exact: replaying a
 generation's snapshot and segments gives the committed database of its last ship.
 */
module EngineProofs {
  import opened Wal
  import opened WalScan
  import opened Sqlite
  import opened Segments
  import opened Engine
  import opened Options

  // ------------------------------------------------------ segment positions

  /** The last group is exactly the segments with the last index. */
  lemma {:induction false} GroupHoldsItsIndex(segs: seq<Seg>)
    requires InShipOrder(segs) && segs != []
    ensures forall i | 0 <= i < |segs| ::
              if i < GroupStart(segs) then segs[i].key.index < segs[|segs| - 1].key.index
              else segs[i].key.index == segs[|segs| - 1].key.index
    decreases |segs|
  {
    var last := |segs| - 1;
    if last > 0 {
      assert Before(segs[last - 1].key, segs[last].key);
      if segs[last - 1].key.index == segs[last].key.index {
        GroupHoldsItsIndex(segs[..last]);
      } else {
        assert forall i | 0 <= i < last - 1 :: Before(segs[i].key, segs[last - 1].key);
      }
    }
  }

  /** A segment continuing the current index comes after everything shipped. */
  lemma ShipKeepsOrder(segs: seq<Seg>, s: Seg)
    requires InShipOrder(segs)
    requires forall x | x in segs :: x.key.index <= s.key.index && x.key.createdAt <= s.key.createdAt
    requires var group := segs[CycleStart(segs, s.key.index)..];
             Contiguous(group, 0) && s.key.offset == |Bytes(group)|
    ensures InShipOrder(segs + [s])
  {
    forall i | 0 <= i < |segs|
      ensures Before(segs[i].key, s.key) && segs[i].key.createdAt <= s.key.createdAt
    {
      assert segs[i] in segs;
      if segs[i].key.index == s.key.index {
        GroupHoldsItsIndex(segs);
        assert segs[|segs| - 1] in segs;
        var group := segs[CycleStart(segs, s.key.index)..];
        assert segs[i] == group[i - CycleStart(segs, s.key.index)];
        OffsetsAreInside(group, 0, segs[i]);
      }
    }
  }

  lemma ShipKeepsHolds(stored: map<SegKey, seq<Byte>>, segs: seq<Seg>, s: Seg)
    requires Holds(stored, segs) && InShipOrder(segs + [s])
    ensures Holds(stored[s.key := s.data], segs + [s])
  {
    var n := |segs|;
    var all := segs + [s];
    var later := stored[s.key := s.data];
    forall x | x in all ensures x.key in later && later[x.key] == x.data {
      var i :| 0 <= i < |all| && all[i] == x;
      if i < n {
        assert Before(all[i].key, all[n].key) && segs[i] in segs;
      }
    }
    forall k | k in later ensures Seg(k, later[k]) in all {
      if k == s.key {
        assert all[n] == s;
      } else {
        assert Seg(k, stored[k]) in segs;
      }
    }
  }

  /** Nothing carries an index above the current one, so a new index starts after everything. */
  lemma FreshIndexStartsAtEnd(segs: seq<Seg>, index: nat)
    requires forall x | x in segs :: x.key.index < index
    ensures CycleStart(segs, index) == |segs|
  {
    if segs != [] { assert segs[|segs| - 1] in segs; }
  }

  lemma ContiguousHasBytes(group: seq<Seg>, start: nat)
    ensures Contiguous(group, start) && group != [] ==> Bytes(group) != []
  {
  }

  /** What all segments rebuild, in terms of the cycle in progress. */
  lemma ReplayIsOverlay(m: Machine, t: Tracker, st: Stored, h: History, clock: int)
    requires Tracked(t, h, clock)
    ensures Replay(st.snapshot, h.segs) == Overlay(ShippedBase(m, t, st, h), ShippedFrames(m, t, h))
    ensures t.walOffset == 0 ==> CurrentCycle(h, t.walIndex) == [] && Replay(st.snapshot, h.segs) == CycleBase(st, h, t.walIndex)
  {
    hide HeaderOf;
    var group := CurrentCycle(h, t.walIndex);
    ReplayAtCycle(st.snapshot, h.segs, t.walIndex);
    RebuiltComplete(group, 0);
    if t.walOffset == 0 {
      ContiguousHasBytes(group, 0);
      NoFrames();
    }
  }

  lemma NoFrames()
    ensures Frames([]) == [] && HeaderOf([]).Rejected? && Committed([]) == 0
  {
  }

  /** Within a cycle, the shipped bytes are a committed beginning of the WAL. */
  lemma ShippedIsCommitted(m: Machine, t: Tracker, h: History, clock: int)
    requires Tracked(t, h, clock) && InStep(m, t, h)
    ensures Committed(m.wal) <= |m.wal| && ShippedFrames(m, t, h) <= Frames(m.wal)
    ensures SameCycle(m, t) ==> t.walOffset <= Committed(m.wal)
    ensures SameCycle(m, t) && t.walOffset == Committed(m.wal) ==> ShippedFrames(m, t, h) == Frames(m.wal)
  {
    hide HeaderOf, Frames, Committed;
    CommittedIsWithinFile(m.wal);
    if SameCycle(m, t) {
      var shipped := Bytes(CurrentCycle(h, t.walIndex));
      assert CurrentCycle(h, t.walIndex) != [];
      ScanExtends(shipped, m.wal);
    }
  }

  /** The transactions not shipped change nothing exactly when the backend can rebuild the live database. */
  lemma UnshippedIsTheDifference(m: Machine, t: Tracker, st: Stored, h: History, clock: int)
    requires Tracked(t, h, clock) && Base(ShippedBase(m, t, st, h), m)
    ensures NothingUnshipped(m, t, st, h) <==> Live(m) == Replay(st.snapshot, h.segs)
  {
    hide Overlay, Frames, ShippedBase, ShippedFrames, Replay, Tracked, Base;
    ReplayIsOverlay(m, t, st, h, clock);
    BaseGivesLive(ShippedBase(m, t, st, h), m);
  }

  // -------------------------------------------------- steps of the SQLite files

  lemma WriteKeepsCycle(m: Machine, n: Machine, t: Tracker)
    requires WellFormed(m) && Write(m, n) && (!SameCycle(m, t) && t.walOffset > 0 ==> t.salts in m.used)
    ensures SameCycle(n, t) <==> SameCycle(m, t)
  {
    hide Held, Frames, Committed, GrowthIsWritten;
    ScanExtends(m.wal, n.wal);
    CommittedIsWithinFile(m.wal);
  }

  lemma WriteKeepsInv(s: System, n: System)
    requires Inv(s) && Write(s.m, n.m) && n == s.(m := n.m)
    ensures Inv(n)
  {
    hide GenerationOk, Tracked, Base, Write, HeaderOf, Committed, Frames, WellFormed;
    var base :| Base(base, s.m);
    WriteKeepsBase(base, s.m, n.m);
    if s.t.generation.Some? {
      var g := s.t.generation.value;
      var st, h := s.backend[g], s.log[g];
      BaseIsWellFormed(base, s.m);
      WriteKeepsCycle(s.m, n.m, s.t);
      ShippedIsCommitted(s.m, s.t, h, s.clock);
      WriteKeepsPrefix(s.m, n.m, s.t.walOffset);
      if h.lost.None? { WriteKeepsBase(ShippedBase(s.m, s.t, st, h), s.m, n.m); }
    }
  }

  lemma BaseIsWellFormed(base: Db, m: Machine)
    requires Base(base, m)
    ensures WellFormed(m)
  {
  }

  lemma WriteKeepsPrefix(m: Machine, n: Machine, k: nat)
    requires Write(m, n)
    ensures k <= Committed(m.wal) ==> k <= |m.wal| && k <= |n.wal| && n.wal[..k] == m.wal[..k] && n.used == m.used
    ensures n.used == m.used
  {
    hide Committed, Frames, HeaderOf;
    if k <= Committed(m.wal) {
      assert n.wal[..k] == n.wal[..Committed(m.wal)][..k] && m.wal[..k] == m.wal[..Committed(m.wal)][..k];
    }
  }

  /** The files after the end of a cycle: everything is in the main file, and the shipped bytes belong to the past. */
  ghost predicate CycleOver(m: Machine, n: Machine, t: Tracker) {
    && Base(n.main, n) && n.main == Live(m)
    && !SameCycle(n, t)
    && (SameCycle(m, t) || (t.walOffset > 0 ==> t.salts in m.used) ==> t.walOffset > 0 ==> t.salts in n.used)
  }

  lemma TruncateEnds(base: Db, m: Machine, n: Machine, t: Tracker)
    requires Base(base, m) && Truncate(m, n)
    ensures CycleOver(m, n, t)
  {
    hide Base, Frames, Live, Committed, WellFormed;
    TruncateEndsCycle(base, m, n);
    NoFrames();
  }

  lemma ResetEnds(base: Db, m: Machine, n: Machine, t: Tracker)
    requires Base(base, m) && Reset(m, n) && (SameCycle(m, t) || (t.walOffset > 0 ==> t.salts in m.used))
    ensures CycleOver(m, n, t)
  {
    hide Base, Frames, Live, Committed, HeaderOf, WellFormed;
    ResetEndsCycle(base, m, n);
  }

  /** The end of a cycle marks a loss when the backend cannot rebuild the live database, and only then. */
  lemma CycleEndsMark(s: System)
    requires Inv(s)
    ensures s.t.generation.None? ==> CycleEnds(s) == s.log
    ensures s.t.generation.Some? ==>
              var g := s.t.generation.value;
              var st, h := s.backend[g], s.log[g];
              CycleEnds(s) ==
                if h.lost.Some? || Live(s.m) == Replay(st.snapshot, h.segs) then s.log else s.log[g := h.(lost := Some(|h.segs|))]
  {
    hide Base, GenerationOk, Tracked, InStep, Live, Replay, ShippedBase, NothingUnshipped;
    if s.t.generation.Some? && s.log[s.t.generation.value].lost.None? {
      var g := s.t.generation.value; UnshippedIsTheDifference(s.m, s.t, s.backend[g], s.log[g], s.clock); }
  }

  /** The end of a cycle keeps the invariant: what the generation loses by it is recorded. */
  lemma CycleEndKeepsInv(s: System, n: System)
    requires Inv(s) && n == s.(m := n.m, log := CycleEnds(s)) && CycleOver(s.m, n.m, s.t)
    ensures Inv(n)
  {
    hide Base, Live, Replay, GenerationOk, Tracked, CycleBase, CurrentCycle, CycleEnds, HeaderOf;
    CycleEndsMark(s);
    if s.t.generation.Some? {
      var g := s.t.generation.value;
      if s.log[g].lost.None? { LossKeepsGeneration(s.backend[g], s.log[g], s.t, s.clock); }
      assert n.log.Keys == s.log.Keys;
    }
  }

  lemma LossKeepsGeneration(st: Stored, h: History, t: Tracker, clock: int)
    requires GenerationOk(st, h) && Tracked(t, h, clock) && h.lost.None?
    ensures GenerationOk(st, h.(lost := Some(|h.segs|))) && Tracked(t, h.(lost := Some(|h.segs|)), clock)
  {
    hide Replay, HeaderOf, Committed, Contiguous;
  }

  lemma ResetKeepsInv(s: System, n: System)
    requires Inv(s) && Reset(s.m, n.m) && n == s.(m := n.m, log := CycleEnds(s))
    ensures Inv(n)
  {
    var base :| Base(base, s.m);
    hide Base, Reset, GenerationOk, Tracked, SameCycle, CycleOver;
    if s.t.generation.Some? {
      ResetEnds(base, s.m, n.m, s.t);
      CycleEndKeepsInv(s, n);
    } else {
      ResetEndsCycle(base, s.m, n.m);
    }
  }

  /** Only the WAL file matters for what was shipped of it. */
  lemma SameWalSameCycle(s: System, n: System)
    requires n == s.(m := n.m) && n.m.wal == s.m.wal
    ensures CycleEnds(n) == CycleEnds(s)
    ensures forall st, h :: ShippedBase(n.m, s.t, st, h) == ShippedBase(s.m, s.t, st, h)
    ensures SameCycle(n.m, s.t) == SameCycle(s.m, s.t)
  {
    hide HeaderOf, Frames, Overlay, Replay, CycleBase, CurrentCycle, Bytes;
  }

  lemma BackfillKeepsWal(m: Machine, n: Machine)
    requires Backfill(m, n)
    ensures n.wal == m.wal && n.used == m.used
  {
  }

  lemma BackfillKeepsInv(s: System, n: System)
    requires Inv(s) && Backfill(s.m, n.m) && n == s.(m := n.m)
    ensures Inv(n) && Live(n.m) == Live(s.m) && n.m.wal == s.m.wal
    ensures CycleEnds(n) == CycleEnds(s)
  {
    hide Base, Backfill, GenerationOk, Tracked, HeaderOf, Live, CycleEnds, ShippedBase, SameCycle, CurrentCycle, Bytes;
    BackfillKeepsWal(s.m, n.m);
    var base :| Base(base, s.m);
    BackfillKeepsBase(base, s.m, n.m);
    SameWalSameCycle(s, n);
    if s.t.generation.Some? && s.log[s.t.generation.value].lost.None? {
      BackfillKeepsBase(ShippedBase(s.m, s.t, s.backend[s.t.generation.value], s.log[s.t.generation.value]), s.m, n.m);
    }
  }

  lemma TruncateKeepsInv(s: System, n: System)
    requires Inv(s) && Truncate(s.m, n.m) && n == s.(m := n.m, log := CycleEnds(s))
    ensures Inv(n)
  {
    var base :| Base(base, s.m);
    hide Base, Truncate, GenerationOk, Tracked, SameCycle, CycleOver;
    if s.t.generation.Some? {
      TruncateEnds(base, s.m, n.m, s.t);
      CycleEndKeepsInv(s, n);
    } else {
      TruncateEndsCycle(base, s.m, n.m);
    }
  }

  /** Ending an empty cycle loses nothing. */
  lemma EmptyCycleEnds(s: System)
    requires s.m.wal == []
    ensures CycleEnds(s) == s.log
  {
    NoFrames();
    hide Overlay, Replay;
  }

  /** Whatever a checkpoint achieves, and whatever was still to ship, the invariant is kept and readers see no change. */
  lemma CheckpointKeepsInv(s: System, n: System)
    requires Inv(s) && Checkpoints(s, n)
    ensures Inv(n) && Live(n.m) == Live(s.m) && (n.m.wal == [] || n.m.wal == s.m.wal)
  {
    var base :| Base(base, s.m);
    CheckpointIsInvisible(base, s.m, n.m);
    hide Inv, Base, Backfill, Live, CycleEnds;
    if n.m != s.m {
      var mid :| Backfill(s.m, mid) && (n.m == mid || Truncate(mid, n.m));
      var k := s.(m := mid);
      BackfillKeepsInv(s, k);
      if Truncate(mid, n.m) {
        if s.m.wal == [] { EmptyCycleEnds(k); }
        TruncateKeepsInv(k, n);
      }
    }
  }

  // ------------------------------------------------------------ engine steps

  /** A new index starts over the database that all segments rebuild. */
  lemma NextIndexTracked(t: Tracker, st: Stored, h: History, clock: int, salts: Salts)
    requires Tracked(t, h, clock)
    ensures Tracked(NextIndex(t).(salts := salts), h, clock)
    ensures CycleBase(st, h, t.walIndex + 1) == Replay(st.snapshot, h.segs)
  {
    hide HeaderOf, Committed, Replay;
    FreshIndexStartsAtEnd(h.segs, t.walIndex + 1);
    assert CurrentCycle(h, t.walIndex + 1) == [];
    assert h.segs[..|h.segs|] == h.segs;
  }

  lemma NextIndexKeepsInv(s: System, salts: Salts)
    requires Inv(s) && s.t.generation.Some? && !SameCycle(s.m, s.t)
    ensures Inv(s.(t := NextIndex(s.t).(salts := salts)))
  {
    hide Base, GenerationOk, Tracked, Replay, HeaderOf, CycleBase;
    var g := s.t.generation.value;
    NextIndexTracked(s.t, s.backend[g], s.log[g], s.clock, salts);
  }

  /** Before anything of an index is shipped, its salts may still be chosen. */
  lemma FirstSaltsKeepInv(s: System, salts: Salts)
    requires Inv(s) && s.t.generation.Some? && s.t.walOffset == 0
    ensures Inv(s.(t := s.t.(salts := salts)))
  {
    hide Base, GenerationOk, Replay, HeaderOf, Committed, CycleBase;
    var h := s.log[s.t.generation.value];
    ReplayIsOverlay(s.m, s.t, s.backend[s.t.generation.value], h, s.clock);
    assert CurrentCycle(h, s.t.walIndex) == [];
    assert Tracked(s.t.(salts := salts), h, s.clock);
    assert ShippedBase(s.m, s.t.(salts := salts), s.backend[s.t.generation.value], h)
        == ShippedBase(s.m, s.t, s.backend[s.t.generation.value], h);
  }

  lemma OffsetIsInside(s: System)
    requires Inv(s) && s.t.generation.Some?
    ensures Committed(s.m.wal) <= |s.m.wal| && (SameCycle(s.m, s.t) ==> s.t.walOffset <= Committed(s.m.wal))
  {
    hide Base, GenerationOk, Tracked, InStep, ShippedBase;
    ShippedIsCommitted(s.m, s.t, s.log[s.t.generation.value], s.clock);
  }

  /** New salts start a new index at offset 0; otherwise the shipped bytes are the beginning of this WAL. */
  lemma RollKeepsInv(s: System)
    requires Inv(s) && s.t.generation.Some? && HeaderOf(s.m.wal).Parsed?
    ensures var t := Rolled(s.t, s.m.wal);
            && Inv(s.(t := t)) && (t.walOffset > 0 ==> SameCycle(s.m, t)) && t.salts == SaltsOf(s.m.wal)
            && (t.walOffset > 0 ==> t == s.t)
            && t.walOffset <= Committed(s.m.wal) <= |s.m.wal|
  {
    hide Inv, HeaderOf, Committed;
    OffsetIsInside(s);
    if s.t.walOffset > 0 && s.t.salts != SaltsOf(s.m.wal) {
      NextIndexKeepsInv(s, SaltsOf(s.m.wal));
    } else if s.t.walOffset == 0 {
      FirstSaltsKeepInv(s, SaltsOf(s.m.wal));
    }
  }

  /** The cycle's bytes after a ship are the WAL up to its committed end. */
  lemma ShippedCycle(m: Machine, t: Tracker, st: Stored, h: History, clock: int, seg: Seg)
    requires Tracked(t, h, clock) && InStep(m, t, h)
    requires HeaderOf(m.wal).Parsed? && t.salts == SaltsOf(m.wal)
    requires t.walOffset < Committed(m.wal) <= |m.wal|
    requires seg.key.index == t.walIndex && seg.key.offset == t.walOffset
    requires seg.data == m.wal[t.walOffset..Committed(m.wal)]
    ensures var group := CurrentCycle(h, t.walIndex) + [seg];
            && Contiguous(group, 0)
            && Bytes(group) == m.wal[..Committed(m.wal)]
            && Committed(Bytes(group)) == |Bytes(group)|
            && HeaderOf(Bytes(group)) == HeaderOf(m.wal) && Frames(Bytes(group)) == Frames(m.wal)
    ensures Replay(st.snapshot, h.segs + [seg]) == Overlay(CycleBase(st, h, t.walIndex), Frames(m.wal))
    ensures CycleBase(st, h, t.walIndex) == ShippedBase(m, t, st, h)
  {
    hide HeaderOf, Committed, Frames, Replay, CycleStart, Overlay;
    var c := Committed(m.wal);
    var group := CurrentCycle(h, t.walIndex);
    ReplayIsOverlay(m, t, st, h, clock);
    ContiguousAppend(group, 0, seg);
    assert m.wal[..c] == m.wal[..t.walOffset] + m.wal[t.walOffset..c];
    ScanOfCut(m.wal);
    RebuiltComplete(group + [seg], 0);
    ReplayAppend(st.snapshot, h.segs, seg);
  }

  /**
   A ship extends its index contiguously to the committed boundary; while the generation has lost nothing, it then
   rebuilds the live database.
   */
  lemma ShipKeepsGeneration(m: Machine, t: Tracker, st: Stored, h: History, clock: int, seg: Seg)
    requires GenerationOk(st, h) && Tracked(t, h, clock) && InStep(m, t, h)
    requires h.lost.None? ==> Base(ShippedBase(m, t, st, h), m)
    requires HeaderOf(m.wal).Parsed? && t.salts == SaltsOf(m.wal)
    requires t.walOffset < Committed(m.wal) <= |m.wal|
    requires seg.key.index == t.walIndex && seg.key.offset == t.walOffset && clock <= seg.key.createdAt
    requires seg.data == m.wal[t.walOffset..Committed(m.wal)]
    ensures var h2 := History(h.segs + [seg], h.lives + [Live(m)], h.lost);
            var st2 := st.(segs := st.segs[seg.key := seg.data]);
            var t2 := t.(walOffset := Committed(m.wal));
            && GenerationOk(st2, h2) && Tracked(t2, h2, seg.key.createdAt) && InStep(m, t2, h2) && SameCycle(m, t2)
            && (h.lost.None? ==> Replay(st2.snapshot, h2.segs) == Live(m) && Base(ShippedBase(m, t2, st2, h2), m))
  {
    hide Base, HeaderOf, Committed, Frames, Replay, CycleStart, GroupStart, Contiguous, Bytes, Holds, InShipOrder, WellShipped;
    hide GenerationOk, Overlay, Live;
    ShippedCycle(m, t, st, h, clock, seg);
    ShippedHistory(h, t, clock, seg);
    if h.lost.None? { BaseGivesLive(CycleBase(st, h, t.walIndex), m); }
    GenerationExtends(m, t, st, h, clock, seg);
    SplitOfAppended(h.segs, seg);
  }

  lemma SplitOfAppended(segs: seq<Seg>, s: Seg)
    ensures var k := CycleStart(segs, s.key.index);
            CycleStart(segs + [s], s.key.index) == k && (segs + [s])[..k] == segs[..k] && (segs + [s])[k..] == segs[k..] + [s]
  {
    GroupStartAppend(segs, s);
  }

  lemma ShippedHistory(h: History, t: Tracker, clock: int, seg: Seg)
    requires Tracked(t, h, clock) && seg.key.index == t.walIndex && clock <= seg.key.createdAt
    ensures forall x | x in h.segs + [seg] :: x.key.index <= t.walIndex && x.key.createdAt <= seg.key.createdAt
  {
    hide Contiguous, Committed, HeaderOf, CurrentCycle;
  }

  lemma GenerationExtends(m: Machine, t: Tracker, st: Stored, h: History, clock: int, seg: Seg)
    requires GenerationOk(st, h) && Tracked(t, h, clock) && InStep(m, t, h)
    requires h.lost.None? ==> Replay(st.snapshot, h.segs + [seg]) == Live(m)
    requires HeaderOf(m.wal).Parsed? && t.salts == SaltsOf(m.wal)
    requires t.walOffset < Committed(m.wal) <= |m.wal|
    requires seg.key.index == t.walIndex && seg.key.offset == t.walOffset && clock <= seg.key.createdAt
    requires seg.data == m.wal[t.walOffset..Committed(m.wal)]
    ensures GenerationOk(st.(segs := st.segs[seg.key := seg.data]), History(h.segs + [seg], h.lives + [Live(m)], h.lost))
  {
    hide HeaderOf, Committed, Frames, Replay, CycleStart, GroupStart, Contiguous, Bytes, Holds, InShipOrder, WellShipped, Live, Overlay;
    ShippedCycle(m, t, st, h, clock, seg);
    ShipKeepsOrder(h.segs, seg);
    ShipKeepsHolds(st.segs, h.segs, seg);
    GroupStartAppend(h.segs, seg);
    SplitOfAppended(h.segs, seg);
    ExtendGeneration(st, h, seg, Live(m));
  }

  lemma ExtendGeneration(st: Stored, h: History, seg: Seg, live: Db)
    requires GenerationOk(st, h) && (h.lost.None? ==> Replay(st.snapshot, h.segs + [seg]) == live)
    requires InShipOrder(h.segs + [seg]) && CycleWellShipped(h.segs + [seg])
    requires Holds(st.segs[seg.key := seg.data], h.segs + [seg])
    ensures GenerationOk(st.(segs := st.segs[seg.key := seg.data]), History(h.segs + [seg], h.lives + [live], h.lost))
  {
    hide CycleWellShipped, InShipOrder, Holds, Replay;
    var all := h.segs + [seg];
    assert all[..|all|] == all;
    forall k: nat | k <= |h.segs|
      ensures all[..k] == h.segs[..k]
    {
    }
  }

  lemma ShipKeepsInv(s: System, now: int)
    requires Inv(s) && s.t.generation.Some? && HeaderOf(s.m.wal).Parsed? && s.t.salts == SaltsOf(s.m.wal)
    requires s.t.walOffset < Committed(s.m.wal) && s.clock <= now
    ensures Committed(s.m.wal) <= |s.m.wal| && Knows(s) && Inv(Ship(s, now)) && AllShipped(Ship(s, now))
  {
    CommittedIsWithinFile(s.m.wal);
    hide Base, GenerationOk, Tracked, InStep, HeaderOf, Committed, ShippedBase, Replay, Live;
    var g := s.t.generation.value;
    ShipKeepsGeneration(s.m, s.t, s.backend[g], s.log[g], s.clock, NewSegment(s, now));
    var n := Ship(s, now);
    assert n.backend.Keys == n.log.Keys;
  }

  lemma CallKeepsInv(s: System, call: Call)
    requires Inv(s) && (call.Shipped? ==> s.t.generation.Some?)
    ensures Inv(s.(call := call))
  {
    hide Base, GenerationOk, Tracked, InStep, ShippedBase;
  }

  /** A call of sync up to its checkpoint keeps the invariant; when it succeeds, nothing is left to ship at that moment. */
  lemma SyncShipsKeepsInv(s: System, n: System)
    requires Inv(s) && SyncShips(s, n)
    ensures Inv(n)
    ensures n.call.Shipped? ==> n.m == s.m && n.t.generation == s.t.generation && AllShipped(n) && n.t.walOffset == n.call.committed
  {
    hide Inv, HeaderOf, Committed, SaltsOf;
    if s.t.generation.Some? && HeaderOf(s.m.wal).Parsed? {
      var r := s.(t := Rolled(s.t, s.m.wal));
      RollKeepsInv(s);
      CommittedHasHeader(s.m.wal);
      if Committed(s.m.wal) <= r.t.walOffset {
        CallKeepsInv(r, Shipped(Committed(s.m.wal)));
      } else if n != r {
        ShipKeepsInv(r, n.clock);
        CallKeepsInv(Ship(r, n.clock), Shipped(Committed(s.m.wal)));
      }
    }
  }

  lemma CommittedHasHeader(w: seq<Byte>)
    requires HeaderOf(w).Parsed?
    ensures Committed(w) > 0
  {
  }

  /** maybeCheckpoint keeps the invariant, whatever was committed since the scan. */
  lemma SyncCheckpointsKeepsInv(s: System, n: System, threshold: int)
    requires Inv(s) && SyncCheckpoints(s, n, threshold)
    ensures Inv(n) && Live(n.m) == Live(s.m)
  {
    hide Checkpoints, Live;
    assert s.t.generation.Some?;
    if s.call.committed < threshold || s.t.walOffset != s.call.committed {
      hide Inv;
      CallKeepsInv(s, Idle);
    } else {
      var k := s.(m := n.m, log := n.log);
      hide Inv;
      CheckpointKeepsInv(s, k);
      CallKeepsInv(k, Idle);
      if n.t != s.t {
        NoFrames();
        EmptyIsNoCycle(k.m, k.t);
        NextIndexKeepsInv(k.(call := Idle), k.t.salts);
      }
    }
  }

  lemma EmptyIsNoCycle(m: Machine, t: Tracker)
    requires m.wal == []
    ensures !SameCycle(m, t)
  {
  }

  lemma CompactsKeepsInv(s: System, n: System)
    requires Inv(s) && Compacts(s, n)
    ensures Inv(n) && Live(n.m) == Live(s.m)
  {
    hide Inv, Checkpoints, Live;
    var k := n.(call := Idle);
    CheckpointKeepsInv(s, k);
    CallKeepsInv(k, Compacted);
  }

  /** A new generation starts in step, over the file as it was copied, even under a WAL that readers pin. */
  lemma OpenedKeepsInv(s: System, g: GenId)
    requires Inv(s) && g !in s.backend && s.clock <= g.createdAt
    ensures Inv(Opened(s, g))
  {
    hide Base, GenerationOk, Tracked, InStep, ShippedBase;
    var base :| Base(base, s.m);
    MainIsABase(base, s.m);
    EmptyGenerationOk(s.m, g);
    var n := Opened(s, g);
    forall x | x in n.backend ensures x.createdAt <= n.clock && GenerationOk(n.backend[x], n.log[x]) {
      if x != g { assert x in s.backend; }
    }
  }

  lemma EmptyGenerationOk(m: Machine, g: GenId)
    requires Base(m.main, m)
    ensures Fits(m.main)
    ensures var st, h, t := Stored(m.main, map[]), History([], [m.main], None), Tracker(Some(g), 0, 0, Salts(0, 0));
            GenerationOk(st, h) && Tracked(t, h, g.createdAt) && InStep(m, t, h) && ShippedBase(m, t, st, h) == m.main
  {
    hide Base, GenerationOk, Tracked, InStep, ShippedBase;
    BaseIsWellFormed(m.main, m);
    EmptyHistoryOk(Stored(m.main, map[]), History([], [m.main], None));
    NothingTracked(Tracker(Some(g), 0, 0, Salts(0, 0)), History([], [m.main], None), g.createdAt);
    NothingShippedYet(m, Tracker(Some(g), 0, 0, Salts(0, 0)), Stored(m.main, map[]), History([], [m.main], None));
  }

  lemma NothingTracked(t: Tracker, h: History, clock: int)
    requires h.segs == [] && t.walOffset == 0
    ensures Tracked(t, h, clock)
  {
    assert CurrentCycle(h, t.walIndex) == [];
  }

  lemma NothingShippedYet(m: Machine, t: Tracker, st: Stored, h: History)
    requires h.segs == [] && t.walOffset == 0
    ensures InStep(m, t, h) && ShippedBase(m, t, st, h) == st.snapshot
  {
  }

  lemma EmptyHistoryOk(st: Stored, h: History)
    requires st.segs == map[] && h == History([], [st.snapshot], None) && Fits(st.snapshot)
    ensures GenerationOk(st, h)
  {
    hide GroupStart, Contiguous, Committed, ApplyIndex;
    assert h.segs[..0] == [];
  }

  /** Time passing does not touch the tracker. */
  lemma LaterTracked(t: Tracker, h: History, clock: int, later: int)
    requires Tracked(t, h, clock) && clock <= later
    ensures Tracked(t, h, later)
  {
    hide Contiguous, Bytes, HeaderOf, Committed, CurrentCycle;
  }

  /** A stored generation that the engine does not know of changes nothing for the one it ships to. */
  lemma OrphanKeepsInv(s: System, n: System, g: GenId)
    requires Inv(s) && Orphans(s, n, g)
    ensures Inv(n) && n.m == s.m
  {
    hide Base, Tracked, GenerationOk, InStep, ShippedBase;
    var base :| Base(base, s.m);
    MainIsABase(base, s.m);
    EmptyGenerationOk(s.m, g);
    forall x | x in n.backend ensures x.createdAt <= n.clock && GenerationOk(n.backend[x], n.log[x]) {
      if x != g { assert x in s.backend; }
    }
    if s.t.generation.Some? {
      LaterTracked(s.t, s.log[s.t.generation.value], s.clock, n.clock);
    }
  }

  lemma PruneKeepsInv(s: System, n: System, cutoff: int)
    requires Inv(s) && Prune(s, n, cutoff)
    ensures Inv(n)
  {
    hide Base, GenerationOk, Tracked, InStep, ShippedBase;
  }

  lemma OpensKeepsInv(s: System, n: System, cutoff: int)
    requires Inv(s) && Opens(s, n, cutoff)
    ensures Inv(n) && n.m == s.m
  {
    hide Inv, Opened, Orphans;
    if n == s.(call := Idle) {
      CallKeepsInv(s, Idle);
    } else if g: GenId :| Orphans(s, n, g) {
      OrphanKeepsInv(s, n, g);
    } else {
      var g: GenId :| g !in s.backend && s.clock <= g.createdAt && Prune(Opened(s, g), n, cutoff);
      OpenedKeepsInv(s, g);
      PruneKeepsInv(Opened(s, g), n, cutoff);
      OpenedKeepsFiles(s, g);
    }
  }

  lemma OpenedKeepsFiles(s: System, g: GenId)
    ensures Opened(s, g).m == s.m
  {
  }

  lemma WritersKeepInv(s: System, n: System)
    requires Inv(s) && Writers(s, n)
    ensures Inv(n)
  {
    hide Inv, Write, Reset, CycleEnds;
    if Write(s.m, n.m) && n == s.(m := n.m) { WriteKeepsInv(s, n); } else { ResetKeepsInv(s, n); }
  }

  lemma RestartKeepsInv(s: System, n: System)
    requires Inv(s) && (n == s.(t := NO_TRACKER, call := Idle) || (s.clock <= n.clock && n == s.(clock := n.clock)))
    ensures Inv(n)
  {
    hide Base, GenerationOk, InStep, ShippedBase, CurrentCycle, Contiguous;
    if n != s.(t := NO_TRACKER, call := Idle) && s.t.generation.Some? {
      assert Tracked(n.t, n.log[s.t.generation.value], n.clock);
    }
  }

  /** Every step of the system, in any order, keeps the invariant. */
  lemma StepKeepsInv(s: System, n: System)
    requires Inv(s) && Step(s, n)
    ensures Inv(n)
  {
    hide Inv, Writers, SyncShips, SyncCheckpoints, Compacts, Opens;
    if Writers(s, n) {
      WritersKeepInv(s, n);
    } else if SyncShips(s, n) {
      SyncShipsKeepsInv(s, n);
    } else if threshold: int :| SyncCheckpoints(s, n, threshold) {
      SyncCheckpointsKeepsInv(s, n, threshold);
    } else if Compacts(s, n) {
      CompactsKeepsInv(s, n);
    } else if cutoff: int :| Opens(s, n, cutoff) {
      OpensKeepsInv(s, n, cutoff);
    } else {
      RestartKeepsInv(s, n);
    }
  }
}
