/**
 Retention: what pruning old generations (pruneLocked in backup.go) does to the restore points.
 */
module Retention {
  import opened Segments
  import opened Sqlite
  import opened Engine
  import opened Options
  import opened EngineTheorems

  /** What a prune with this cutoff leaves when every deletion succeeds. */
  function Kept(gens: set<GenId>, current: GenId, cutoff: int): set<GenId> {
    set g | g in gens && (g == current || g.createdAt >= cutoff)
  }

  /** Some deletions may fail: those generations stay too. */
  predicate PrunedTo(before: set<GenId>, after: set<GenId>, current: GenId, cutoff: int) {
    Kept(before, current, cutoff) <= after <= before
  }

  /** Restore finds no generation. */
  ghost predicate NoneChosen(gens: set<GenId>, at: Option<int>) {
    forall g :: !Chosen(gens, at, g)
  }

  /** Every generation but the current one is followed by another within `gap`. */
  predicate AtMostApart(gens: set<GenId>, current: GenId, gap: int) {
    forall g | g in gens && g != current :: exists x :: x in gens && g.createdAt < x.createdAt <= g.createdAt + gap
  }

  lemma ChosenIsKept(before: set<GenId>, after: set<GenId>, current: GenId, cutoff: int, gap: int, at: int, x: GenId)
    requires PrunedTo(before, after, current, cutoff) && AtMostApart(before, current, gap) && cutoff + gap <= at
    requires Chosen(before, Some(at), x)
    ensures x in after
  {
    if x != current {
      var y :| y in before && x.createdAt < y.createdAt <= x.createdAt + gap;
    }
    assert x in Kept(before, current, cutoff);
  }

  /**
   Pruning keeps point-in-time selection: with generations at most `gap` apart, any timestamp from
   `gap` after the cutoff on picks the same generation before and after, and the current one survives.
   */
  lemma PruneKeepsSelection(before: set<GenId>, after: set<GenId>, current: GenId, cutoff: int, gap: int, at: int, g: GenId)
    requires PrunedTo(before, after, current, cutoff) && AtMostApart(before, current, gap)
    requires current in before && cutoff + gap <= at
    ensures Chosen(before, Some(at), g) <==> Chosen(after, Some(at), g)
    ensures current in after
  {
    assert current in Kept(before, current, cutoff);
    if Chosen(before, Some(at), g) {
      ChosenIsKept(before, after, current, cutoff, gap, at, g);
    }
    if Chosen(after, Some(at), g) {
      forall y | y in before && y.createdAt <= at ensures y.createdAt <= g.createdAt {
        var best := LatestBy(before, at, y);
        ChosenIsKept(before, after, current, cutoff, gap, at, best);
      }
    }
  }

  lemma LatestBy(gens: set<GenId>, at: int, y: GenId) returns (best: GenId)
    requires y in gens && y.createdAt <= at
    ensures Chosen(gens, Some(at), best) && best.createdAt >= y.createdAt
  {
    var eligible := set x | x in gens && x.createdAt <= at;
    best := Latest(eligible, y);
  }

  lemma Latest(gens: set<GenId>, y: GenId) returns (best: GenId)
    requires y in gens
    ensures best in gens && forall x | x in gens :: x.createdAt <= best.createdAt
    decreases |gens|
  {
    if later :| later in gens && later.createdAt > y.createdAt {
      best := Latest(gens - {y}, later);
      assert forall x | x in gens :: x == y || x in gens - {y};
    } else {
      best := y;
    }
  }

  /**
   Inside the retention window but before the first generation kept, the promised restore point is gone: after a prune,
   a restore picks the generation it picked before if and only if that one survived, and otherwise an older one whose
   deletion failed, or none at all.
   */
  lemma RestorePointAfterPrune(before: set<GenId>, after: set<GenId>, current: GenId, cutoff: int, at: int, g: GenId)
    requires PrunedTo(before, after, current, cutoff) && Chosen(before, Some(at), g)
    ensures Chosen(after, Some(at), g) <==> g in after
    ensures g == current || g.createdAt >= cutoff ==> g in after
    ensures after == Kept(before, current, cutoff) ==>
              (Chosen(after, Some(at), g) <==> g == current || g.createdAt >= cutoff)
    ensures g !in after ==> forall x | Chosen(after, Some(at), x) :: x.createdAt <= g.createdAt < cutoff
    ensures NoneChosen(after, Some(at)) <==> forall x | x in after :: x.createdAt > at
  {
    assert current in before && g == current ==> current in Kept(before, current, cutoff);
    if x :| x in after && x.createdAt <= at {
      var best := LatestBy(after, at, x);
    }
  }

  /** Retention of one hour, snapshots two hours apart: a moment two hundred seconds before the prune is lost. */
  lemma RetentionWindowHasAHole()
    ensures var before := {GenId(0, 0), GenId(7200, 0)};
            var now, retention, at := 7200, 3600, 7000;
            && now - retention <= at <= now
            && Chosen(before, Some(at), GenId(0, 0))
            && NoneChosen(Kept(before, GenId(7200, 0), now - retention), Some(at))
  {
    var before := {GenId(0, 0), GenId(7200, 0)};
    var after := Kept(before, GenId(7200, 0), 3600);
    assert GenId(7200, 0) in after && GenId(0, 0) !in after;
    RestorePointAfterPrune(before, after, GenId(7200, 0), 3600, 7000, GenId(0, 0));
  }

  /** A prune of the system leaves every selected restore point with the same result. */
  lemma PruneKeepsRestores(s: System, n: System, current: GenId, cutoff: int, gap: int, at: int, g: GenId, db: Db)
    requires Prune(s, n, cutoff) && s.t.generation == Some(current) && current in s.backend
    requires AtMostApart(s.backend.Keys, current, gap) && cutoff + gap <= at
    ensures Restores(s.backend, Some(at), g, db) <==> Restores(n.backend, Some(at), g, db)
  {
    hide Chosen, IsListing, Replay, AtMostApart;
    assert PrunedTo(s.backend.Keys, n.backend.Keys, current, cutoff);
    PruneKeepsSelection(s.backend.Keys, n.backend.Keys, current, cutoff, gap, at, g);
    ChosenIsThere(s.backend.Keys, Some(at), g);
    ChosenIsThere(n.backend.Keys, Some(at), g);
  }

  lemma ChosenIsThere(gens: set<GenId>, at: Option<int>, g: GenId)
    ensures Chosen(gens, at, g) ==> g in gens
  {
  }
}
