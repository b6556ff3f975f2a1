/**
 Restore and applyWALIndex (backup.go): choose a generation, lay down its snapshot, and roll the segments
 forward one WAL cycle at a time.
 */
module Restore {
  import opened Wal
  import opened Sqlite
  import opened Segments
  import opened Engine
  import opened Options
  import opened EngineTheorems

  datatype RestoreResult = NoBackups | NoGenerationThen | Restored(generation: GenId, db: Db)

  // ----------------------------------------------------------------- sorting

  /** Generations newest first, as Restore sorts them. */
  predicate NewestFirst(gens: seq<GenId>) {
    forall i, j | 0 <= i < j < |gens| :: gens[i].createdAt >= gens[j].createdAt
  }

  lemma NewestExists(gens: set<GenId>)
    requires gens != {}
    ensures exists g :: g in gens && forall x | x in gens :: x.createdAt <= g.createdAt
  {
    var g :| g in gens;
    if gens != {g} {
      NewestExists(gens - {g});
      var best :| best in gens - {g} && forall x | x in gens - {g} :: x.createdAt <= best.createdAt;
      var winner := if best.createdAt >= g.createdAt then best else g;
      assert forall x | x in gens :: x == g || x in gens - {g};
      assert winner in gens && forall x | x in gens :: x.createdAt <= winner.createdAt;
    }
  }

  method SortGenerations(gens: set<GenId>) returns (sorted: seq<GenId>)
    ensures NewestFirst(sorted) && forall g :: g in sorted <==> g in gens
    ensures forall i, j | 0 <= i < j < |sorted| :: sorted[i] != sorted[j]
  {
    sorted := [];
    var todo := gens;
    while todo != {}
      invariant NewestFirst(sorted) && todo <= gens
      invariant forall g :: g in gens <==> g in sorted || g in todo
      invariant (forall g | g in sorted :: g !in todo) && forall i, j | 0 <= i < j < |sorted| :: sorted[i] != sorted[j]
      invariant forall g, x | g in sorted && x in todo :: g.createdAt >= x.createdAt
      decreases |todo|
    {
      NewestExists(todo);
      var g :| g in todo && forall x | x in todo :: x.createdAt <= g.createdAt;
      sorted := sorted + [g];
      todo := todo - {g};
    }
  }

  predicate KeyAtMost(a: SegKey, b: SegKey) {
    !Before(b, a)
  }

  lemma LeastKeyExists(keys: set<SegKey>)
    requires keys != {}
    ensures exists k :: k in keys && forall x | x in keys :: KeyAtMost(k, x)
  {
    var k :| k in keys;
    if keys == {k} {
      assert forall x | x in keys :: KeyAtMost(k, x);
    } else {
      LeastKeyExists(keys - {k});
      var best :| best in keys - {k} && forall x | x in keys - {k} :: KeyAtMost(best, x);
      var winner := if KeyAtMost(best, k) then best else k;
      assert forall x | x in keys :: x == k || x in keys - {k};
      assert winner in keys && forall x | x in keys :: KeyAtMost(winner, x);
    }
  }

  /** The listing of a generation's objects, by index and then offset. */
  method SortSegments(stored: map<SegKey, seq<Byte>>) returns (listing: seq<Seg>)
    ensures IsListing(listing, stored)
  {
    listing := [];
    var todo := stored.Keys;
    while todo != {}
      invariant Sorted(listing) && todo <= stored.Keys
      invariant forall s | s in listing :: s.key in stored && stored[s.key] == s.data && s.key !in todo
      invariant forall k | k in stored && k !in todo :: Seg(k, stored[k]) in listing
      invariant forall s, k | s in listing && k in todo :: KeyAtMost(s.key, k)
      decreases |todo|
    {
      LeastKeyExists(todo);
      var k :| k in todo && forall x | x in todo :: KeyAtMost(k, x);
      listing := listing + [Seg(k, stored[k])];
      todo := todo - {k};
    }
  }

  // ------------------------------------------------------------------ replay

  /** The loop of applyWALIndex: write the contiguous beginning of the cycle, let SQLite recover and fold it. */
  method ApplyWALIndex(db: Db, segs: seq<Seg>) returns (result: Db)
    ensures result == ApplyIndex(db, segs)
  {
    if |segs| == 0 || segs[0].key.offset != 0 {
      assert Rebuilt(segs, 0) == [];
      return db;
    }
    var file: seq<Byte> := [];
    var written := 0;
    var i := 0;
    while i < |segs|
      invariant 0 <= i <= |segs| && written == |file|
      invariant Rebuilt(segs, 0) == file + Rebuilt(segs[i..], written)
    {
      if segs[i].key.offset != written {
        break;
      }
      assert segs[i..][1..] == segs[i + 1..];
      file := file + segs[i].data;
      written := written + |segs[i].data|;
      i := i + 1;
    }
    assert Rebuilt(segs[i..], written) == [];
    assert file == Rebuilt(segs, 0);
    if written == 0 {
      return db;
    }
    return Overlay(db, Frames(file));
  }

  /** The segments grouped by index, in the order of `indexes`. */
  function Flatten(byIndex: map<nat, seq<Seg>>, indexes: seq<nat>): seq<Seg>
    requires forall x | x in indexes :: x in byIndex
  {
    if indexes == [] then []
    else Flatten(byIndex, indexes[..|indexes| - 1]) + byIndex[indexes[|indexes| - 1]]
  }

  /** Every group is non-empty and holds segments of its own index, and the indexes ascend. */
  ghost predicate Grouped(byIndex: map<nat, seq<Seg>>, indexes: seq<nat>) {
    && (forall x :: x in indexes <==> x in byIndex)
    && (forall i, j | 0 <= i < j < |indexes| :: indexes[i] < indexes[j])
    && (forall x | x in byIndex :: byIndex[x] != [] && forall s | s in byIndex[x] :: s.key.index == x)
  }

  lemma {:induction false} FlattenFrame(a: map<nat, seq<Seg>>, b: map<nat, seq<Seg>>, indexes: seq<nat>)
    requires forall x | x in indexes :: x in a && x in b && a[x] == b[x]
    ensures Flatten(a, indexes) == Flatten(b, indexes)
  {
    if indexes != [] { FlattenFrame(a, b, indexes[..|indexes| - 1]); }
  }

  lemma IndexesAscend(byIndex: map<nat, seq<Seg>>, indexes: seq<nat>, x: nat)
    requires Grouped(byIndex, indexes) && indexes != [] && indexes[|indexes| - 1] <= x
    ensures x in byIndex <==> indexes[|indexes| - 1] == x
    ensures x !in indexes[..|indexes| - 1]
    ensures forall i | 0 <= i < |indexes| :: indexes[i] <= x
  {
    var n := |indexes| - 1;
    forall i | 0 <= i < n ensures indexes[i] < indexes[n] {
    }
    assert indexes[n] in indexes;
  }

  /** Adding the next listed segment to the group in progress. */
  lemma ExtendGroup(byIndex: map<nat, seq<Seg>>, indexes: seq<nat>, s: Seg)
    requires Grouped(byIndex, indexes) && s.key.index in byIndex
    requires indexes != [] && indexes[|indexes| - 1] <= s.key.index
    ensures var more := byIndex[s.key.index := byIndex[s.key.index] + [s]];
            Grouped(more, indexes) && Flatten(more, indexes) == Flatten(byIndex, indexes) + [s]
  {
    var x := s.key.index;
    var more := byIndex[x := byIndex[x] + [s]];
    IndexesAscend(byIndex, indexes, x);
    var front := indexes[..|indexes| - 1];
    assert forall y | y in front :: y in indexes;
    FlattenFrame(byIndex, more, front);
    assert Flatten(more, indexes) == Flatten(byIndex, front) + (byIndex[x] + [s]);
  }

  /** Starting a group for the next listed segment. */
  lemma StartGroup(byIndex: map<nat, seq<Seg>>, indexes: seq<nat>, s: Seg)
    requires Grouped(byIndex, indexes) && s.key.index !in byIndex
    requires indexes != [] ==> indexes[|indexes| - 1] <= s.key.index
    ensures var more := byIndex[s.key.index := [s]];
            var longer := indexes + [s.key.index];
            Grouped(more, longer) && Flatten(more, longer) == Flatten(byIndex, indexes) + [s]
  {
    var x := s.key.index;
    var more := byIndex[x := [s]];
    var longer := indexes + [x];
    if indexes != [] { IndexesAscend(byIndex, indexes, x); }
    assert longer[..|indexes|] == indexes;
    FlattenFrame(byIndex, more, indexes);
    forall i, j | 0 <= i < j < |longer| ensures longer[i] < longer[j] {
      assert longer[i] in indexes;
    }
  }

  lemma GroupStartAfter(segs: seq<Seg>, group: seq<Seg>, index: nat)
    requires group != [] && forall s | s in group :: s.key.index == index
    requires segs != [] ==> segs[|segs| - 1].key.index != index
    ensures GroupStart(segs + group) == |segs|
  {
    GroupStartOfRest(segs, group, index);
  }

  /** Replaying group by group is Replay. */
  lemma ReplayNextGroup(snapshot: Db, byIndex: map<nat, seq<Seg>>, indexes: seq<nat>, j: nat)
    requires Grouped(byIndex, indexes) && j < |indexes|
    ensures forall x | x in indexes[..j + 1] :: x in byIndex
    ensures Replay(snapshot, Flatten(byIndex, indexes[..j + 1])) ==
            ApplyIndex(Replay(snapshot, Flatten(byIndex, indexes[..j])), byIndex[indexes[j]])
  {
    assert indexes[..j + 1][..j] == indexes[..j];
    var before := Flatten(byIndex, indexes[..j]);
    var group := byIndex[indexes[j]];
    PrefixIsFlat(byIndex, indexes, j);
    GroupStartAfter(before, group, indexes[j]);
    assert (before + group)[..|before|] == before && (before + group)[|before|..] == group;
  }

  lemma {:induction false} PrefixIsFlat(byIndex: map<nat, seq<Seg>>, indexes: seq<nat>, j: nat)
    requires Grouped(byIndex, indexes) && j < |indexes|
    ensures var before := Flatten(byIndex, indexes[..j]);
            before != [] ==> before[|before| - 1].key.index != indexes[j]
  {
    if j > 0 {
      var x := indexes[j - 1];
      assert indexes[..j][..j - 1] == indexes[..j - 1];
      assert x in indexes && byIndex[x][|byIndex[x]| - 1] in byIndex[x];
    }
  }

  /** Restore: errors exactly when nothing can be chosen, and otherwise rebuilds what the chosen generation holds. */
  method Restore(backend: Backend, timestamp: Option<int>) returns (r: RestoreResult)
    ensures r.NoBackups? <==> backend == map[]
    ensures r.NoGenerationThen? <==>
              backend != map[] && timestamp.Some? && forall g | g in backend :: g.createdAt > timestamp.value
    ensures r.Restored? ==> Restores(backend, timestamp, r.generation, r.db)
  {
    var gens := SortGenerations(backend.Keys);
    if |gens| == 0 {
      assert backend == map[] by { assert forall g :: g !in backend.Keys; }
      return NoBackups;
    }
    assert gens[0] in gens;
    var gen := None;
    var i := 0;
    while i < |gens|
      invariant 0 <= i <= |gens| && gen == None
      invariant timestamp.Some? ==> forall k | 0 <= k < i :: gens[k].createdAt > timestamp.value
      invariant i > 0 ==> timestamp.Some?
    {
      if timestamp.None? || gens[i].createdAt <= timestamp.value {
        gen := Some(gens[i]);
        break;
      }
      i := i + 1;
    }
    if gen.None? {
      return NoGenerationThen;
    }
    var g := gen.value;
    assert Chosen(backend.Keys, timestamp, g) by {
      forall x | x in backend.Keys && (timestamp.Some? ==> x.createdAt <= timestamp.value)
        ensures x.createdAt <= g.createdAt
      {
        assert x in gens;
      }
    }
    var listing := SortSegments(backend[g].segs);
    var db := RollForward(backend[g].snapshot, listing, timestamp);
    return Restored(g, db);
  }

  /** Restore's grouping loop: the segments recorded up to the timestamp, by index. */
  method GroupByIndex(listing: seq<Seg>, timestamp: Option<int>) returns (byIndex: map<nat, seq<Seg>>, indexes: seq<nat>)
    requires Sorted(listing)
    ensures Grouped(byIndex, indexes) && Flatten(byIndex, indexes) == Selected(listing, timestamp)
  {
    hide Flatten, Selected, Sorted;
    byIndex := map[];
    indexes := [];
    NothingGrouped(listing, timestamp);
    ghost var last := 0;
    var i := 0;
    while i < |listing|
      invariant 0 <= i <= |listing|
      invariant Grouped(byIndex, indexes)
      invariant Flatten(byIndex, indexes) == Selected(listing[..i], timestamp)
      invariant indexes != [] ==> 0 <= last < i && listing[last].key.index == indexes[|indexes| - 1]
    {
      var s := listing[i];
      SelectedOneMore(listing, i, timestamp);
      if indexes != [] { SortedIndexesAscend(listing, last, i); }
      if timestamp.None? || s.key.createdAt <= timestamp.value {
        if s.key.index !in byIndex {
          StartGroup(byIndex, indexes, s);
          indexes := indexes + [s.key.index];
          byIndex := byIndex[s.key.index := [s]];
          last := i;
        } else {
          KnownIndex(byIndex, indexes, s.key.index);
          ExtendGroup(byIndex, indexes, s);
          byIndex := byIndex[s.key.index := byIndex[s.key.index] + [s]];
        }
      }
      i := i + 1;
    }
    assert listing[..i] == listing;
  }

  lemma NothingGrouped(listing: seq<Seg>, at: Option<int>)
    ensures Grouped(map[], []) && Flatten(map[], []) == Selected(listing[..0], at)
  {
  }

  lemma SortedIndexesAscend(listing: seq<Seg>, i: nat, j: nat)
    requires Sorted(listing) && i < j < |listing|
    ensures listing[i].key.index <= listing[j].key.index
  {
  }

  lemma KnownIndex(byIndex: map<nat, seq<Seg>>, indexes: seq<nat>, x: nat)
    requires Grouped(byIndex, indexes) && x in byIndex
    ensures indexes != []
  {
    assert x in indexes;
  }

  /** Restore's replay: group the segments, then apply one index after the other. */
  method RollForward(snapshot: Db, listing: seq<Seg>, timestamp: Option<int>) returns (db: Db)
    requires Sorted(listing)
    ensures db == Replay(snapshot, Selected(listing, timestamp))
  {
    hide Replay, Flatten, ApplyIndex, Sorted;
    var byIndex, indexes := GroupByIndex(listing, timestamp);
    // The indexes are ascending already, so sorting them again would change nothing.
    NothingApplied(snapshot, byIndex);
    db := snapshot;
    var j := 0;
    assert indexes[..0] == [];
    while j < |indexes|
      invariant 0 <= j <= |indexes|
      invariant forall x | x in indexes[..j] :: x in byIndex
      invariant db == Replay(snapshot, Flatten(byIndex, indexes[..j]))
    {
      ReplayNextGroup(snapshot, byIndex, indexes, j);
      assert indexes[j] in indexes;
      db := ApplyWALIndex(db, byIndex[indexes[j]]);
      j := j + 1;
    }
    assert indexes[..j] == indexes;
  }

  lemma NothingApplied(snapshot: Db, byIndex: map<nat, seq<Seg>>)
    ensures Replay(snapshot, Flatten(byIndex, [])) == snapshot
  {
  }

  lemma SelectedOneMore(listing: seq<Seg>, i: nat, at: Option<int>)
    requires i < |listing|
    ensures Selected(listing[..i + 1], at) ==
            if at.None? || listing[i].key.createdAt <= at.value then Selected(listing[..i], at) + [listing[i]]
            else Selected(listing[..i], at)
  {
    assert listing[..i + 1][..i] == listing[..i];
  }
}
