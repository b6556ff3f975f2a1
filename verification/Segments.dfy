/**
 Shipped WAL segments and what replaying them means: the pure part of Restore and
 applyWALIndex (backup.go). A segment names the WAL cycle it belongs to (its index), the byte
 offset where it starts, and when it was shipped.
 */
module Segments {
  import opened Wal
  import opened WalScan
  import opened Sqlite

  datatype SegKey = SegKey(index: nat, offset: nat, createdAt: int)

  datatype Seg = Seg(key: SegKey, data: seq<Byte>)

  /** The listing order: by index, then by offset. */
  predicate Before(a: SegKey, b: SegKey) {
    a.index < b.index || (a.index == b.index && a.offset < b.offset)
  }

  // --------------------------------------------------------- one WAL cycle

  /** The bytes applyWALIndex writes: segments in order, up to the first that does not start where the last ended. */
  function Rebuilt(group: seq<Seg>, written: nat): seq<Byte>
    decreases |group|
  {
    if group == [] || group[0].key.offset != written then []
    else group[0].data + Rebuilt(group[1..], written + |group[0].data|)
  }

  /** SQLite recovers the rebuilt WAL and folds it into the file. */
  function ApplyIndex(db: Db, group: seq<Seg>): Db {
    Overlay(db, Frames(Rebuilt(group, 0)))
  }

  /** All the bytes of the segments, one after the other. */
  function Bytes(group: seq<Seg>): seq<Byte> {
    if group == [] then [] else group[0].data + Bytes(group[1..])
  }

  /** The segments follow each other without gap or overlap from byte `start` on, and none is empty. */
  predicate Contiguous(group: seq<Seg>, start: nat) {
    group == [] ||
    (group[0].key.offset == start && group[0].data != [] && Contiguous(group[1..], start + |group[0].data|))
  }

  lemma {:induction false} ContiguousAppend(group: seq<Seg>, start: nat, s: Seg)
    requires Contiguous(group, start) && s.key.offset == start + |Bytes(group)| && s.data != []
    ensures Contiguous(group + [s], start) && Bytes(group + [s]) == Bytes(group) + s.data
  {
    if group == [] {
      assert group + [s] == [s] && [s][1..] == [];
    } else {
      assert (group + [s])[1..] == group[1..] + [s];
      ContiguousAppend(group[1..], start + |group[0].data|, s);
    }
  }

  /** Every segment lies inside the bytes of the run. */
  lemma {:induction false} OffsetsAreInside(group: seq<Seg>, start: nat, s: Seg)
    requires Contiguous(group, start) && s in group
    ensures start <= s.key.offset < start + |Bytes(group)|
  {
    if s != group[0] { OffsetsAreInside(group[1..], start + |group[0].data|, s); }
  }

  /** On a complete cycle Restore writes every byte. */
  lemma {:induction false} RebuiltComplete(group: seq<Seg>, start: nat)
    requires Contiguous(group, start)
    ensures Rebuilt(group, start) == Bytes(group)
  {
    if group != [] { RebuiltComplete(group[1..], start + |group[0].data|); }
  }

  predicate SortedByOffset(group: seq<Seg>) {
    forall i, j | 0 <= i < j < |group| :: group[i].key.offset < group[j].key.offset
  }

  /** The length of the longest common beginning. */
  function RunLength(some: seq<Seg>, full: seq<Seg>): (k: nat)
    ensures k <= |some| && k <= |full| && some[..k] == full[..k]
    ensures k < |some| && k < |full| ==> some[k] != full[k]
  {
    if some == [] || full == [] || some[0] != full[0] then 0
    else
      var k := RunLength(some[1..], full[1..]);
      assert some[..k + 1] == [some[0]] + some[1..][..k] && full[..k + 1] == [full[0]] + full[1..][..k];
      k + 1
  }

  lemma TailOfSubset(some: seq<Seg>, full: seq<Seg>)
    requires SortedByOffset(some) && forall s | s in some :: s in full
    requires some != [] && full != [] && some[0] == full[0]
    ensures SortedByOffset(some[1..]) && full[0] !in some[1..] && forall s | s in some[1..] :: s in full[1..]
  {
    forall s | s in some[1..] ensures s != full[0] && s in full[1..] {
      var i :| 0 <= i < |some| - 1 && some[1..][i] == s;
      assert some[i + 1] in full && some[0].key.offset < some[i + 1].key.offset;
    }
  }

  lemma FirstIsMissing(some: seq<Seg>, full: seq<Seg>, start: nat)
    requires Contiguous(full, start) && SortedByOffset(some) && forall s | s in some :: s in full
    requires some != [] && full != [] && some[0] != full[0]
    ensures some[0].key.offset > start && full[0] !in some
  {
    assert some[0] in full && some[0] in full[1..];
    OffsetsAreInside(full[1..], start + |full[0].data|, some[0]);
    assert forall i | 0 <= i < |some| :: some[i].key.offset >= some[0].key.offset;
  }

  /**
   Replay with missing segments: for any subset of one cycle's segments, the rebuilt WAL is exactly the
   longest run of segments present from byte 0 (nothing when the first is missing).
   */
  lemma {:induction false} RebuiltIsLongestRun(some: seq<Seg>, full: seq<Seg>, start: nat)
    requires Contiguous(full, start) && SortedByOffset(some) && forall s | s in some :: s in full
    ensures var k := RunLength(some, full);
            Rebuilt(some, start) == Bytes(full[..k]) && (k < |full| ==> full[k] !in some)
  {
    hide SortedByOffset;
    assert full[..0] == [];
    if some != [] {
      assert some[0] in full;
    }
    if some != [] && some[0] != full[0] {
      FirstIsMissing(some, full, start);
    } else if some != [] {
      TailOfSubset(some, full);
      RebuiltIsLongestRun(some[1..], full[1..], start + |full[0].data|);
      var k := RunLength(some[1..], full[1..]);
      assert full[..k + 1][1..] == full[1..][..k];
      if k + 1 < |full| {
        assert full[k + 1] == full[1..][k];
        OffsetsAreInside(full[1..], start + |full[0].data|, full[k + 1]);
      }
    }
  }

  lemma {:induction false} RebuiltStops(run: seq<Seg>, start: nat, rest: seq<Seg>)
    requires Contiguous(run, start) && (rest != [] ==> rest[0].key.offset != start + |Bytes(run)|)
    ensures Rebuilt(run + rest, start) == Bytes(run)
  {
    if run == [] {
      assert run + rest == rest;
    } else {
      assert (run + rest)[1..] == run[1..] + rest;
      RebuiltStops(run[1..], start + |run[0].data|, rest);
    }
  }

  /**
   Two objects under one index and offset, as a write that failed and yet stored leaves behind: Restore writes the one
   listed first and nothing after it, not even what was shipped later.
   */
  lemma DuplicateStopsReplay(run: seq<Seg>, first: Seg, second: Seg, rest: seq<Seg>)
    requires Contiguous(run + [first], 0) && second.key.offset == first.key.offset == |Bytes(run)|
    ensures Rebuilt(run + [first] + ([second] + rest), 0) == Bytes(run + [first]) == Bytes(run) + first.data
  {
    BytesAppend(run, first);
    LastHasData(run, 0, first);
    RebuiltStops(run + [first], 0, [second] + rest);
  }

  lemma {:induction false} BytesAppend(run: seq<Seg>, s: Seg)
    ensures Bytes(run + [s]) == Bytes(run) + s.data
  {
    if run == [] {
      assert run + [s] == [s] && [s][1..] == [];
    } else {
      assert (run + [s])[1..] == run[1..] + [s];
      BytesAppend(run[1..], s);
    }
  }

  lemma {:induction false} LastHasData(run: seq<Seg>, start: nat, s: Seg)
    requires Contiguous(run + [s], start)
    ensures s.data != []
  {
    if run != [] {
      assert (run + [s])[1..] == run[1..] + [s];
      LastHasData(run[1..], start + |run[0].data|, s);
    }
  }

  // ------------------------------------------------------------ whole replay

  /** Where the run of segments sharing the last one's index begins. */
  function GroupStart(segs: seq<Seg>): (g: nat)
    requires segs != []
    ensures g < |segs|
  {
    var last := |segs| - 1;
    if last == 0 || segs[last - 1].key.index != segs[last].key.index then last else GroupStart(segs[..last])
  }

  /** Rolling segments forward over a snapshot, one index at a time. */
  function Replay(db: Db, segs: seq<Seg>): Db
    decreases |segs|
  {
    if segs == [] then db
    else ApplyIndex(Replay(db, segs[..GroupStart(segs)]), segs[GroupStart(segs)..])
  }

  /** The segments of the cycle being shipped: those at the end that carry the current index. */
  function CycleStart(segs: seq<Seg>, index: nat): (k: nat)
    ensures k <= |segs|
  {
    if segs != [] && segs[|segs| - 1].key.index == index then GroupStart(segs) else |segs|
  }

  lemma GroupStartAppend(segs: seq<Seg>, s: Seg)
    ensures GroupStart(segs + [s]) == CycleStart(segs, s.key.index)
  {
    assert (segs + [s])[..|segs|] == segs;
  }

  /** Segments of one index after others join its group, or start one. */
  lemma {:induction false} GroupStartOfRest(front: seq<Seg>, rest: seq<Seg>, index: nat)
    requires rest != [] && forall s | s in rest :: s.key.index == index
    ensures GroupStart(front + rest) == CycleStart(front, index)
  {
    var n := |rest| - 1;
    GroupStartAppend(front + rest[..n], rest[n]);
    assert front + rest == (front + rest[..n]) + [rest[n]];
    if n == 0 {
      assert front + rest[..n] == front;
    } else {
      assert (front + rest[..n])[|front| + n - 1] == rest[n - 1] && rest[n - 1] in rest;
      GroupStartOfRest(front, rest[..n], index);
    }
  }

  /** Replaying one more segment extends the WAL of its index, or starts a new one over what was there. */
  lemma ReplayAppend(db: Db, segs: seq<Seg>, s: Seg)
    ensures var k := CycleStart(segs, s.key.index);
            Replay(db, segs + [s]) == ApplyIndex(Replay(db, segs[..k]), segs[k..] + [s])
  {
    var k := CycleStart(segs, s.key.index);
    GroupStartAppend(segs, s);
    assert (segs + [s])[..k] == segs[..k] && (segs + [s])[k..] == segs[k..] + [s];
  }

  lemma ReplayAtCycle(db: Db, segs: seq<Seg>, index: nat)
    ensures var k := CycleStart(segs, index);
            Replay(db, segs) == ApplyIndex(Replay(db, segs[..k]), segs[k..])
  {
    var k := CycleStart(segs, index);
    if k == |segs| {
      assert segs[..k] == segs && segs[k..] == [];
      CommittedIsWithinFile([]);
    }
  }

  // ---------------------------------------------------------- ship order

  /** Segments in the order they were shipped: names increase and clocks do not go back. */
  predicate InShipOrder(segs: seq<Seg>) {
    forall i, j | 0 <= i < j < |segs| ::
      Before(segs[i].key, segs[j].key) && segs[i].key.createdAt <= segs[j].key.createdAt
  }

  /**
   Segment bookkeeping: after every ship, the segments of that index are contiguous from byte 0,
   end on a commit boundary (or right after the header), and form one checksummed WAL cycle.
   */
  predicate WellShipped(segs: seq<Seg>) {
    forall k: nat | 0 < k <= |segs| :: CycleWellShipped(segs[..k])
  }

  predicate CycleWellShipped(segs: seq<Seg>)
    requires segs != []
  {
    var group := segs[GroupStart(segs)..];
    Contiguous(group, 0) && Committed(Bytes(group)) == |Bytes(group)|
  }

  /** The timestamp filter of Restore. */
  function UpTo(segs: seq<Seg>, deadline: int): seq<Seg> {
    if segs == [] then []
    else
      var rest := UpTo(segs[..|segs| - 1], deadline);
      if segs[|segs| - 1].key.createdAt > deadline then rest else rest + [segs[|segs| - 1]]
  }

  /** How many segments had been shipped by then. */
  function ShippedBy(segs: seq<Seg>, deadline: int): (n: nat)
    ensures n <= |segs|
    ensures n > 0 ==> segs[n - 1].key.createdAt <= deadline
    ensures forall i | n <= i < |segs| :: segs[i].key.createdAt > deadline
  {
    if segs == [] then 0
    else if segs[|segs| - 1].key.createdAt <= deadline then |segs|
    else ShippedBy(segs[..|segs| - 1], deadline)
  }

  lemma {:induction false} UpToKeepsAll(segs: seq<Seg>, deadline: int)
    requires InShipOrder(segs) && (segs != [] ==> segs[|segs| - 1].key.createdAt <= deadline)
    ensures UpTo(segs, deadline) == segs
  {
    if segs != [] {
      var last := |segs| - 1;
      assert forall i | 0 <= i < last :: Before(segs[i].key, segs[last].key) && segs[i].key.createdAt <= deadline;
      UpToKeepsAll(segs[..last], deadline);
      assert segs == segs[..last] + [segs[last]];
    }
  }

  /** In ship order the timestamp filter keeps a prefix: everything up to the last ship at or before the deadline. */
  lemma {:induction false} UpToIsAPrefix(segs: seq<Seg>, deadline: int)
    requires InShipOrder(segs)
    ensures UpTo(segs, deadline) == segs[..ShippedBy(segs, deadline)]
  {
    if segs != [] {
      var last := |segs| - 1;
      if segs[last].key.createdAt <= deadline {
        UpToKeepsAll(segs, deadline);
        assert segs[..|segs|] == segs;
      } else {
        UpToIsAPrefix(segs[..last], deadline);
        assert segs[..last][..ShippedBy(segs, deadline)] == segs[..ShippedBy(segs, deadline)];
      }
    }
  }

  /** The deadline cuts the ship order at one point: everything before it counts, nothing after it. */
  lemma DeadlineIsACut(segs: seq<Seg>, deadline: int, i: nat)
    requires InShipOrder(segs) && i < |segs|
    ensures i < ShippedBy(segs, deadline) <==> segs[i].key.createdAt <= deadline
  {
    var n: int := ShippedBy(segs, deadline);
    if i < n - 1 {
      assert Before(segs[i].key, segs[n - 1].key) && segs[i].key.createdAt <= segs[n - 1].key.createdAt;
    }
  }

  // ----------------------------------------------------- backend listings

  /** Stored objects are exactly these segments. */
  ghost predicate Holds(stored: map<SegKey, seq<Byte>>, segs: seq<Seg>) {
    && (forall s | s in segs :: s.key in stored && stored[s.key] == s.data)
    && (forall k | k in stored :: Seg(k, stored[k]) in segs)
  }

  predicate Sorted(segs: seq<Seg>) {
    forall i, j | 0 <= i < j < |segs| :: segs[i].key != segs[j].key && !Before(segs[j].key, segs[i].key)
  }

  /** A listing of stored objects, sorted the way Restore sorts it. */
  ghost predicate IsListing(listing: seq<Seg>, stored: map<SegKey, seq<Byte>>) {
    Sorted(listing) && Holds(stored, listing)
  }

  lemma HoldsWithoutLast(stored: map<SegKey, seq<Byte>>, segs: seq<Seg>)
    requires Sorted(segs) && Holds(stored, segs) && segs != []
    ensures Sorted(segs[..|segs| - 1]) && Holds(stored - {segs[|segs| - 1].key}, segs[..|segs| - 1])
  {
    var n := |segs| - 1;
    var less := stored - {segs[n].key};
    forall s | s in segs[..n] ensures s.key in less && less[s.key] == s.data {
      var i :| 0 <= i < n && segs[i] == s;
      assert segs[i] in segs && segs[i].key != segs[n].key;
    }
    forall k | k in less ensures Seg(k, less[k]) in segs[..n] {
      var i :| 0 <= i < |segs| && segs[i] == Seg(k, stored[k]);
      assert segs[..n][i] == segs[i];
    }
  }

  lemma LastOfListing(listing: seq<Seg>, segs: seq<Seg>, stored: map<SegKey, seq<Byte>>)
    requires InShipOrder(segs) && Holds(stored, segs) && IsListing(listing, stored) && segs != []
    ensures listing != [] && listing[|listing| - 1] == segs[|segs| - 1]
  {
    var n := |segs| - 1;
    assert segs[n] in segs;
    assert Seg(segs[n].key, stored[segs[n].key]) in listing;
    var p :| 0 <= p < |listing| && listing[p] == segs[n];
    var q := |listing| - 1;
    assert listing[q] in listing;
    assert Seg(listing[q].key, stored[listing[q].key]) in segs;
    var i :| 0 <= i < |segs| && segs[i] == listing[q];
    assert i < n ==> Before(segs[i].key, segs[n].key);
  }

  lemma EmptyListing(stored: map<SegKey, seq<Byte>>, listing: seq<Seg>)
    ensures Holds(stored, listing) ==> (listing == [] <==> stored == map[])
  {
    if listing != [] && Holds(stored, listing) {
      assert listing[0] in listing;
    }
  }

  lemma ShipOrderIsSorted(segs: seq<Seg>)
    requires InShipOrder(segs)
    ensures Sorted(segs) && forall n | 0 <= n <= |segs| :: InShipOrder(segs[..n])
  {
    forall i, j | 0 <= i < j < |segs|
      ensures segs[i].key != segs[j].key && !Before(segs[j].key, segs[i].key)
    {
      assert Before(segs[i].key, segs[j].key);
    }
  }

  /** When no two objects share an index and offset, any sorted listing is the ship order. */
  lemma {:induction false} ListingIsShipOrder(listing: seq<Seg>, segs: seq<Seg>, stored: map<SegKey, seq<Byte>>)
    requires InShipOrder(segs) && Holds(stored, segs) && IsListing(listing, stored)
    ensures listing == segs
    decreases |segs|
  {
    hide InShipOrder, Holds, Sorted;
    if segs == [] {
      EmptyListing(stored, segs);
      EmptyListing(stored, listing);
    } else {
      ShipOrderIsSorted(segs);
      LastOfListing(listing, segs, stored);
      HoldsWithoutLast(stored, segs);
      HoldsWithoutLast(stored, listing);
      var n, p := |segs| - 1, |listing| - 1;
      ListingIsShipOrder(listing[..p], segs[..n], stored - {segs[n].key});
      assert listing == listing[..p] + [listing[p]];
      assert segs == segs[..n] + [segs[n]];
    }
  }
}
