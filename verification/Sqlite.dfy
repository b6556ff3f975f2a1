/**
 SQLite seen from the backup engine: a main file of pages, a WAL file of bytes,
 and the steps that change them. Sections 4.3 and 4.4 of the SQLite "Database
 File Format" document give the reader's view and the checkpoint rules.
 */
module Sqlite {
  import opened Wal
  import opened WalScan

  type Page = seq<Byte>

  /** A database image: its size in pages and the content of the pages it holds. */
  datatype Db = Db(size: nat, pages: map<nat, Page>)

  // ------------------------------------------------------------ reader's view

  /** For each page written by the frames, its last content. */
  function Written(fs: seq<Frame>): map<nat, Page> {
    if fs == [] then map[]
    else Written(fs[..|fs| - 1])[fs[|fs| - 1].page as nat := fs[|fs| - 1].data]
  }

  /** The database a reader sees: pages come from the WAL when it has them, and the last commit sets the size. */
  function Overlay(db: Db, fs: seq<Frame>): Db {
    if fs == [] then db
    else
      var size := fs[|fs| - 1].dbSize;
      var all := db.pages + Written(fs);
      Db(size, map p | p in all && p <= size :: all[p])
  }

  /** No page lies past the end of the file. */
  predicate Fits(db: Db) {
    forall p | p in db.pages :: p <= db.size
  }

  lemma OverlayFits(db: Db, fs: seq<Frame>)
    ensures fs != [] || Fits(db) ==> Fits(Overlay(db, fs))
  {
  }

  predicate SamePage(a: Db, b: Db, p: nat) {
    (p in a.pages <==> p in b.pages) && (p in a.pages ==> a.pages[p] == b.pages[p])
  }

  /** No commit among the frames left the database smaller than p pages. */
  ghost predicate NeverCutOff(fs: seq<Frame>, p: nat) {
    forall f | f in fs && f.dbSize > 0 :: p <= f.dbSize as nat
  }

  /**
   The main file `b` may stand in for `a` under the frames: they differ only on pages the
   frames write, or that some transaction of theirs cut off.
   */
  ghost predicate Agrees(a: Db, b: Db, fs: seq<Frame>) {
    && (fs == [] ==> a == b)
    && forall p: nat | p !in Written(fs) && NeverCutOff(fs, p) :: SamePage(a, b, p)
  }

  /**
   A transaction that grows the database writes every new page: a page inside the final size that
   these frames never write was never cut off by one of their commits.
   */
  ghost predicate GrowthIsWritten(fs: seq<Frame>) {
    fs != [] ==> forall p: nat | p !in Written(fs) && p <= fs[|fs| - 1].dbSize as nat :: NeverCutOff(fs, p)
  }

  lemma {:induction false} WrittenConcat(a: seq<Frame>, b: seq<Frame>)
    ensures Written(a + b) == Written(a) + Written(b)
    decreases |b|
  {
    if b == [] {
      assert a + b == a;
    } else {
      var n := |b| - 1;
      assert (a + b)[..|a + b| - 1] == a + b[..n];
      WrittenConcat(a, b[..n]);
    }
  }

  lemma WrittenGrows(a: seq<Frame>, b: seq<Frame>)
    requires a <= b
    ensures Written(a).Keys <= Written(b).Keys
  {
    assert b == a + b[|a|..];
    WrittenConcat(a, b[|a|..]);
  }

  /** More frames only weaken what has to agree. */
  lemma AgreesExtends(a: Db, b: Db, fs: seq<Frame>, more: seq<Frame>)
    requires fs <= more && Agrees(a, b, fs)
    ensures Agrees(a, b, more)
  {
    WrittenGrows(fs, more);
    forall p: nat | p !in Written(more) && NeverCutOff(more, p) ensures SamePage(a, b, p) {
      assert NeverCutOff(fs, p);
    }
  }

  /** The file shows under the frames what another shows: the pages the frames leave to the file are the same. */
  ghost predicate SameBelow(a: Db, b: Db, fs: seq<Frame>) {
    if fs == [] then a == b
    else forall p: nat | p <= fs[|fs| - 1].dbSize as nat && p !in Written(fs) :: SamePage(a, b, p)
  }

  lemma OverlaysAreTheSame(a: Db, b: Db, fs: seq<Frame>)
    ensures Overlay(a, fs) == Overlay(b, fs) <==> SameBelow(a, b, fs)
  {
    if fs != [] {
      var size := fs[|fs| - 1].dbSize as nat;
      var x, y := Overlay(a, fs), Overlay(b, fs);
      forall p: nat | p <= size && p !in Written(fs) ensures SamePage(a, b, p) <==> SamePage(x, y, p) {
      }
      SamePagesSameDb(x, y);
      hide Overlay;
      assert x == y <==> forall p: nat | p <= size :: SamePage(x, y, p);
    }
  }

  lemma SamePagesSameDb(a: Db, b: Db)
    requires a.size == b.size && Fits(a) && Fits(b)
    ensures a == b <==> forall p: nat | p <= a.size :: SamePage(a, b, p)
  {
    if forall p: nat | p <= a.size :: SamePage(a, b, p) {
      forall p: nat | p in a.pages || p in b.pages ensures SamePage(a, b, p) {
        assert p <= a.size;
      }
      assert a.pages.Keys == b.pages.Keys;
      assert a.pages == b.pages;
    }
  }

  /** Readers cannot tell agreeing main files apart. */
  lemma OverlayOfAgreeing(a: Db, b: Db, fs: seq<Frame>)
    requires Agrees(a, b, fs) && GrowthIsWritten(fs)
    ensures Overlay(a, fs) == Overlay(b, fs)
  {
    if fs != [] {
      var size := fs[|fs| - 1].dbSize;
      var x, y := Overlay(a, fs), Overlay(b, fs);
      forall p: nat | p <= size && p !in Written(fs) ensures SamePage(a, b, p) {
        assert NeverCutOff(fs, p);
      }
      assert x.pages.Keys == y.pages.Keys;
      assert x.pages == y.pages;
    }
  }

  /** Folding frames into the main file changes nothing for readers that still see them. */
  lemma FoldAgrees(db: Db, fs: seq<Frame>)
    requires fs != [] ==> fs[|fs| - 1].dbSize > 0
    ensures Agrees(db, Overlay(db, fs), fs)
  {
    if fs != [] {
      forall p: nat | p !in Written(fs) && NeverCutOff(fs, p) ensures SamePage(db, Overlay(db, fs), p) {
        assert fs[|fs| - 1] in fs;
      }
    }
  }

  /** Folding twice is folding once. */
  lemma OverlayTwice(db: Db, fs: seq<Frame>)
    ensures Overlay(Overlay(db, fs), fs) == Overlay(db, fs)
  {
    if fs != [] {
      var once := Overlay(db, fs);
      assert Overlay(once, fs).pages == once.pages;
    }
  }

  // ------------------------------------------------- where growth comes from

  predicate AdjacentCommits(fs: seq<Frame>, i: nat, j: nat) {
    i < j < |fs| && fs[i].dbSize > 0 && fs[j].dbSize > 0 && forall k | i < k < j :: fs[k].dbSize == 0
  }

  /** The transaction after commit i, up to commit j, writes page p. */
  predicate Writes(fs: seq<Frame>, i: nat, j: nat, p: nat)
    requires i < j < |fs|
  {
    p in Written(fs[i + 1..j + 1])
  }

  /** Each transaction (the frames after one commit up to the next) writes the pages by which it grows the database. */
  ghost predicate TransactionsWriteNewPages(fs: seq<Frame>) {
    forall i: nat, j: nat | AdjacentCommits(fs, i, j) ::
      forall p: nat | fs[i].dbSize as nat < p <= fs[j].dbSize as nat :: Writes(fs, i, j, p)
  }

  function CommitBefore(fs: seq<Frame>, j: nat): (i: nat)
    requires j < |fs| && exists k: nat :: k < j && fs[k].dbSize > 0
    ensures i < j && fs[i].dbSize > 0 && forall k | i < k < j :: fs[k].dbSize == 0
  {
    if fs[j - 1].dbSize > 0 then j - 1 else CommitBefore(fs, j - 1)
  }

  lemma WrittenInSlice(fs: seq<Frame>, i: nat, j: nat)
    requires i <= j <= |fs|
    ensures Written(fs[i..j]).Keys <= Written(fs).Keys
  {
    WrittenConcat(fs[..i], fs[i..j]);
    assert fs[..j] == fs[..i] + fs[i..j];
    WrittenGrows(fs[..j], fs);
  }

  lemma UnwrittenSlice(fs: seq<Frame>, k: nat, i: nat, j: nat, p: nat)
    requires k <= i < j < |fs| && p !in Written(fs[k + 1..])
    ensures p !in Written(fs[i + 1..j + 1])
  {
    WrittenInSlice(fs[k + 1..], i - k, j - k);
    assert fs[k + 1..][i - k..j - k] == fs[i + 1..j + 1];
  }

  lemma {:induction false} CutOffStaysCutOff(fs: seq<Frame>, k: nat, j: nat, p: nat)
    requires k <= j < |fs| && TransactionsWriteNewPages(fs) && p !in Written(fs[k + 1..])
    requires fs[k].dbSize > 0 && fs[j].dbSize > 0 && fs[k].dbSize as nat < p
    ensures fs[j].dbSize as nat < p
    decreases j
  {
    hide Written, CommitBefore;
    if k < j {
      var i := CommitBefore(fs, j);
      CutOffStaysCutOff(fs, k, i, p);
      UnwrittenSlice(fs, k, i, j, p);
      assert AdjacentCommits(fs, i, j);
      assert !Writes(fs, i, j, p);
    }
  }

  /** The growth rule the machine assumes follows from what each transaction does. */
  lemma GrowingTransactionsSuffice(fs: seq<Frame>)
    requires TransactionsWriteNewPages(fs)
    ensures GrowthIsWritten(fs)
  {
    if fs != [] {
      var last := |fs| - 1;
      forall p: nat | p !in Written(fs) && p <= fs[last].dbSize as nat ensures NeverCutOff(fs, p) {
        forall f | f in fs && f.dbSize > 0 ensures p <= f.dbSize as nat {
          var k :| 0 <= k < |fs| && fs[k] == f;
          WrittenInSlice(fs, k + 1, |fs|);
          assert fs[k + 1..|fs|] == fs[k + 1..];
          if p > f.dbSize as nat { CutOffStaysCutOff(fs, k, last, p); }
        }
      }
    }
  }

  // ------------------------------------------------------------ the machine

  datatype Salts = Salts(salt1: Word, salt2: Word)

  /** The salts of a WAL file with a valid header. */
  function SaltsOf(w: seq<Byte>): Salts
    requires HeaderOf(w).Parsed?
  {
    Salts(HeaderOf(w).header.salt1, HeaderOf(w).header.salt2)
  }

  /**
   `backfilled` counts the frames of the WAL that checkpoints have dealt with; `used` holds the salts of the WAL cycles
   that have ended.
   */
  datatype Machine = Machine(main: Db, wal: seq<Byte>, backfilled: nat, used: set<Salts>)

  /** The committed database, as any reader sees it. */
  function Live(m: Machine): Db {
    Overlay(m.main, Frames(m.wal))
  }

  /** A WAL all of whose committed frames are in the main file, and so every WAL without committed frames. */
  predicate FullyBackfilled(m: Machine) {
    m.backfilled == |Frames(m.wal)|
  }

  /**
   Writers: append a transaction, an uncommitted tail, a torn frame, or undo such a tail. Bytes
   past the committed boundary may change in any way; a WAL without a header may get one,
   with salts no earlier cycle had.
   */
  ghost predicate Write(m: Machine, n: Machine) {
    && n == m.(wal := n.wal)
    && Committed(m.wal) <= |m.wal| && Committed(m.wal) <= |n.wal|
    && n.wal[..Committed(m.wal)] == m.wal[..Committed(m.wal)]
    && GrowthIsWritten(Frames(n.wal))
    && (HeaderOf(m.wal).Rejected? && HeaderOf(n.wal).Parsed? ==> SaltsOf(n.wal) !in m.used)
  }

  /** The page's last frame is among the first k. */
  predicate LastBefore(fs: seq<Frame>, k: nat, p: nat)
    requires k <= |fs|
  {
    p in Written(fs) && p !in Written(fs[k..])
  }

  predicate HasLast(main: Db, fs: seq<Frame>, p: nat)
    requires p in Written(fs)
  {
    p in main.pages && main.pages[p] == Written(fs)[p]
  }

  /** The main file holds the pages of the current size whose last frame is among the first k. */
  ghost predicate CopiedTo(main: Db, fs: seq<Frame>, k: nat)
    requires k <= |fs|
  {
    forall p: nat | LastBefore(fs, k, p) && p <= fs[|fs| - 1].dbSize as nat :: HasLast(main, fs, p)
  }

  /** A complete checkpoint cuts the file to the size of the last commit. */
  predicate Trimmed(main: Db, fs: seq<Frame>) {
    fs != [] ==> main.size == fs[|fs| - 1].dbSize as nat
  }

  /**
   A checkpoint that got as far as frame `n.backfilled`. It touches only pages the committed frames write (and drops
   pages a commit cut off), and it has copied the pages whose last frame it has passed.
   */
  ghost predicate Backfill(m: Machine, n: Machine) {
    && n == m.(main := n.main, backfilled := n.backfilled)
    && m.backfilled <= n.backfilled <= |Frames(m.wal)|
    && Agrees(m.main, n.main, Frames(m.wal))
    && CopiedTo(n.main, Frames(m.wal), n.backfilled) && Fits(n.main)
    && (FullyBackfilled(n) ==> Trimmed(n.main, Frames(m.wal)))
  }

  /** The end of a WAL cycle: all of it is in the main file, and its salts are spent. */
  function EndCycle(m: Machine): set<Salts> {
    if HeaderOf(m.wal).Parsed? then m.used + {SaltsOf(m.wal)} else m.used
  }

  /** The TRUNCATE at the end of a complete checkpoint. */
  ghost predicate Truncate(m: Machine, n: Machine) {
    && FullyBackfilled(m)
    && n == Machine(m.main, [], 0, EndCycle(m))
  }

  /**
   A writer restarts a fully checkpointed WAL in place, under fresh salts. A WAL without a committed frame may get a new
   header too: SQLite draws new salts when the first transaction of the first cycle was rolled back.
   */
  ghost predicate Reset(m: Machine, n: Machine) {
    && FullyBackfilled(m) && HeaderOf(m.wal).Parsed?
    && n == Machine(m.main, n.wal, 0, EndCycle(m))
    && HeaderOf(n.wal).Parsed? && SaltsOf(n.wal) !in EndCycle(m)
    && GrowthIsWritten(Frames(n.wal))
  }

  /** Everything SQLite does on its own. */
  ghost predicate Environment(m: Machine, n: Machine) {
    Write(m, n) || Reset(m, n)
  }

  /** `PRAGMA wal_checkpoint(TRUNCATE)`: nothing, or a checkpoint, and the truncation when nothing prevents it. */
  ghost predicate Checkpoint(m: Machine, n: Machine) {
    n == m || exists mid :: Backfill(m, mid) && (n == mid || Truncate(mid, n))
  }

  /** What checkpoints have dealt with is in the main file, unless a later commit cut it off or a later frame holds it. */
  ghost predicate Held(m: Machine)
    requires m.backfilled <= |Frames(m.wal)|
  {
    forall p: nat | LastBefore(Frames(m.wal), m.backfilled, p) && NeverCutOff(Frames(m.wal), p) :: HasLast(m.main, Frames(m.wal), p)
  }

  /** Well-formed: the WAL satisfies the growth rule, and the main file holds what was backfilled. */
  ghost predicate WellFormed(m: Machine) {
    && GrowthIsWritten(Frames(m.wal)) && Fits(m.main)
    && m.backfilled <= |Frames(m.wal)| && Held(m)
    && (HeaderOf(m.wal).Parsed? ==> SaltsOf(m.wal) !in m.used)
  }

  /** `base` under the WAL's frames is the live database, and replaces the main file for good once all is backfilled. */
  ghost predicate Base(base: Db, m: Machine) {
    && WellFormed(m)
    && Agrees(base, m.main, Frames(m.wal))
    && (FullyBackfilled(m) ==> m.main == Overlay(base, Frames(m.wal)))
  }

  // ------------------------------------------------------- steps keep a base

  lemma BaseGivesLive(base: Db, m: Machine)
    requires Base(base, m)
    ensures Live(m) == Overlay(base, Frames(m.wal))
  {
    hide Held;
    OverlayOfAgreeing(base, m.main, Frames(m.wal));
  }

  /** The main file is always a base of itself: a copy of it replays like the original base. */
  lemma MainIsABase(base: Db, m: Machine)
    requires Base(base, m)
    ensures Base(m.main, m)
  {
    hide Held, Overlay;
    OverlayTwice(base, Frames(m.wal));
  }

  lemma LaterFramesHold(fs: seq<Frame>, more: seq<Frame>, k: nat, p: nat)
    requires fs <= more && k <= |fs| && LastBefore(more, k, p)
    ensures LastBefore(fs, k, p) && Written(more)[p] == Written(fs)[p]
  {
    var tail := more[|fs|..];
    assert more == fs + tail && more[k..] == fs[k..] + tail;
    WrittenConcat(fs, tail);
    WrittenConcat(fs[k..], tail);
  }

  lemma WriteKeepsHeld(m: Machine, n: Machine)
    requires m.backfilled <= |Frames(m.wal)| && Held(m) && n == m.(wal := n.wal) && Frames(m.wal) <= Frames(n.wal)
    ensures Held(n)
  {
    hide Written, Frames, LastBefore;
    var fs, more := Frames(m.wal), Frames(n.wal);
    forall p: nat | LastBefore(more, n.backfilled, p) && NeverCutOff(more, p) ensures p in Written(more) && HasLast(n.main, more, p) {
      LaterFramesHold(fs, more, m.backfilled, p);
      assert NeverCutOff(fs, p);
      LastIsWritten(fs, m.backfilled, p);
      LastIsWritten(more, m.backfilled, p);
      assert HasLast(m.main, fs, p);
    }
  }

  lemma LastIsWritten(fs: seq<Frame>, k: nat, p: nat)
    requires k <= |fs| && LastBefore(fs, k, p)
    ensures p in Written(fs)
  {
  }

  lemma WriteKeepsBase(base: Db, m: Machine, n: Machine)
    requires Base(base, m) && Write(m, n)
    ensures Base(base, n) && Frames(m.wal) <= Frames(n.wal)
    ensures HeaderOf(m.wal).Parsed? ==> HeaderOf(n.wal) == HeaderOf(m.wal)
    ensures Committed(m.wal) <= Committed(n.wal)
    ensures FullyBackfilled(n) ==> FullyBackfilled(m) && Frames(n.wal) == Frames(m.wal)
  {
    hide Held, Agrees, Overlay, GrowthIsWritten, Frames, Committed, HeaderOf;
    ScanExtends(m.wal, n.wal);
    CommittedIsWithinFile(m.wal);
    CommittedIsWithinFile(n.wal);
    AgreesExtends(base, m.main, Frames(m.wal), Frames(n.wal));
    WriteKeepsHeld(m, n);
    assert GrowthIsWritten(Frames(n.wal));
    assert HeaderOf(n.wal).Parsed? ==> SaltsOf(n.wal) !in n.used;
    assert Agrees(base, n.main, Frames(n.wal));
    assert FullyBackfilled(n) ==> Frames(n.wal) == Frames(m.wal);
    assert WellFormed(n);
  }

  /** A checkpoint that got to the end leaves the live database in the main file. */
  lemma CompleteCheckpoint(m: Machine, n: Machine)
    requires GrowthIsWritten(Frames(m.wal)) && Backfill(m, n) && FullyBackfilled(n)
    ensures n.main == Live(m)
  {
    var fs := Frames(m.wal);
    if fs != [] {
      var size := fs[|fs| - 1].dbSize;
      assert fs[|fs|..] == [];
      forall p: nat | p <= size ensures SamePage(n.main, Live(m), p) {
        if p in Written(fs) {
          assert LastBefore(fs, |fs|, p);
          assert HasLast(n.main, fs, p);
        } else {
          assert NeverCutOff(fs, p);
          assert SamePage(m.main, n.main, p);
        }
      }
      assert forall p: nat | p in n.main.pages || p in Live(m).pages :: p <= size && SamePage(n.main, Live(m), p);
      assert n.main.pages.Keys == Live(m).pages.Keys;
      assert n.main.pages == Live(m).pages;
    }
  }

  lemma BackfillKeepsHeld(m: Machine, n: Machine)
    requires Backfill(m, n)
    ensures n.backfilled <= |Frames(n.wal)| && Held(n)
  {
    var fs := Frames(n.wal);
    FramesEndInCommit(n.wal);
    hide Written, Frames;
    forall p: nat | LastBefore(fs, n.backfilled, p) && NeverCutOff(fs, p) ensures HasLast(n.main, fs, p) {
      assert fs[|fs| - 1] in fs;
    }
  }

  lemma BackfillKeepsBase(base: Db, m: Machine, n: Machine)
    requires Base(base, m) && Backfill(m, n)
    ensures Base(base, n) && Live(n) == Live(m)
  {
    var fs := Frames(m.wal);
    BackfillKeepsHeld(m, n);
    hide Held, CopiedTo, Frames, Overlay, Trimmed, GrowthIsWritten;
    AgreesIsTransitive(base, m.main, n.main, fs);
    BaseGivesLive(base, m);
    OverlayOfAgreeing(m.main, n.main, fs);
    if FullyBackfilled(n) { CompleteCheckpoint(m, n); }
  }

  lemma AgreesIsTransitive(a: Db, b: Db, c: Db, fs: seq<Frame>)
    requires Agrees(a, b, fs) && Agrees(b, c, fs)
    ensures Agrees(a, c, fs)
  {
    forall p: nat | p !in Written(fs) && NeverCutOff(fs, p) ensures SamePage(a, c, p) {
      assert SamePage(a, b, p) && SamePage(b, c, p);
    }
  }

  lemma EmptyWalIsFine(m: Machine)
    requires m.wal == [] && m.backfilled == 0 && Fits(m.main)
    ensures Base(m.main, m)
  {
    CommittedIsWithinFile([]);
    assert Frames(m.wal) == [];
  }

  lemma TruncateEndsCycle(base: Db, m: Machine, n: Machine)
    requires Base(base, m) && Truncate(m, n)
    ensures n.main == Overlay(base, Frames(m.wal)) && Base(n.main, n) && Live(n) == Live(m) == n.main
  {
    hide Held;
    BaseGivesLive(base, m);
    EmptyWalIsFine(n);
    CommittedIsWithinFile([]);
    assert Frames(n.wal) == [];
  }

  lemma ResetEndsCycle(base: Db, m: Machine, n: Machine)
    requires Base(base, m) && Reset(m, n)
    ensures n.main == Overlay(base, Frames(m.wal)) == Live(m) && Base(n.main, n)
  {
    BaseGivesLive(base, m);
    CommittedIsWithinFile(n.wal);
    var fs := Frames(n.wal);
    assert fs[0..] == fs;
    assert forall p: nat :: !LastBefore(fs, 0, p);
    hide Written;
  }

  /** Whatever a checkpoint achieves, readers see the same database before and after. */
  lemma CheckpointIsInvisible(base: Db, m: Machine, n: Machine)
    requires Base(base, m) && Checkpoint(m, n)
    ensures Live(n) == Live(m)
  {
    hide Backfill, Truncate, Base, Live;
    if n != m {
      var mid :| Backfill(m, mid) && (n == mid || Truncate(mid, n));
      BackfillKeepsBase(base, m, mid);
      if Truncate(mid, n) { TruncateEndsCycle(base, mid, n); }
    }
  }

  // ----------------------------------------------- checkpoints held back by readers

  /** The pages of the main file after a checkpoint that a reader at frame k holds back: SQLite copies those whose last frame it may pass. */
  function HeldBack(main: Db, fs: seq<Frame>, k: nat): map<nat, Page>
    requires k <= |fs|
  {
    main.pages + map p | p in Written(fs) && LastBefore(fs, k, p) && p <= fs[|fs| - 1].dbSize as nat :: Written(fs)[p]
  }

  /** It is a legal partial checkpoint, wherever the file ends then. */
  lemma HeldBackCheckpoint(m: Machine, k: nat, size: nat)
    requires m.backfilled <= k < |Frames(m.wal)| && Fits(Db(size, HeldBack(m.main, Frames(m.wal), k)))
    ensures Backfill(m, m.(main := Db(size, HeldBack(m.main, Frames(m.wal), k)), backfilled := k))
  {
    hide Written, Frames;
  }

  /** The file shows the database: each page of the database is in the file, and no other below its size. */
  ghost predicate Shows(file: Db, db: Db) {
    forall p: nat | p <= db.size :: SamePage(file, db, p)
  }

  /** Page p of the state at frame k is left out of the copy: a later frame holds it, or a later commit cuts it off. */
  predicate LeftOut(fs: seq<Frame>, k: nat, p: nat)
    requires 0 < k <= |fs|
  {
    p in Written(fs[..k]) && p <= fs[k - 1].dbSize as nat && (p in Written(fs[k..]) || p > fs[|fs| - 1].dbSize as nat)
  }

  /**
   A file copied while a reader at commit k holds checkpoints back shows the state of that commit if and only if the
   pages left out of the copy have, in the file before, the content they have at k.
   */
  lemma HeldBackShowsCommit(main: Db, fs: seq<Frame>, k: nat, size: nat)
    requires 0 < k <= |fs|
    ensures Shows(Db(size, HeldBack(main, fs, k)), Overlay(main, fs[..k])) <==>
            forall p: nat | LeftOut(fs, k, p) :: p in main.pages && main.pages[p] == Written(fs[..k])[p]
  {
    var copy, state := Db(size, HeldBack(main, fs, k)), Overlay(main, fs[..k]);
    assert fs == fs[..k] + fs[k..];
    WrittenConcat(fs[..k], fs[k..]);
    forall p: nat | p <= state.size
      ensures SamePage(copy, state, p) <==> (LeftOut(fs, k, p) ==> p in main.pages && main.pages[p] == Written(fs[..k])[p])
    {
    }
  }

  /** Copying the transactions up to some commit is a legal partial checkpoint. */
  lemma CommitAlignedBackfill(m: Machine, k: nat)
    requires m.backfilled <= k < |Frames(m.wal)| && k > 0 && Frames(m.wal)[k - 1].dbSize > 0
    requires TransactionsWriteNewPages(Frames(m.wal))
    ensures Backfill(m, m.(main := Overlay(m.main, Frames(m.wal)[..k]), backfilled := k))
  {
    var fs := Frames(m.wal);
    FramesEndInCommit(m.wal);
    hide Frames, TransactionsWriteNewPages;
    FoldAgrees(m.main, fs[..k]);
    AgreesExtends(m.main, Overlay(m.main, fs[..k]), fs[..k], fs);
    assert fs == fs[..k] + fs[k..] && fs[k - 1 + 1..] == fs[k..];
    WrittenConcat(fs[..k], fs[k..]);
    forall p: nat | LastBefore(fs, k, p) && p <= fs[|fs| - 1].dbSize as nat ensures HasLast(Overlay(m.main, fs[..k]), fs, p) {
      if p > fs[k - 1].dbSize as nat { CutOffStaysCutOff(fs, k - 1, |fs| - 1, p); }
    }
  }
}
