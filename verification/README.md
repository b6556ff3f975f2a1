# Colmena: backup engine, job queue and cron scheduler, in Dafny

Colmena is a replicated SQLite store. This project models three of its parts and proves what they promise.

* **Backup.** `wal.go` finds the committed end of a SQLite write-ahead log; `backup.go` ships committed byte ranges as
  segments, checkpoints, starts generations with a full snapshot, prunes old ones, and restores. SQLite itself is an
  abstract machine over a main file of pages and a WAL of bytes, following sections 4.1 to 4.4 of the SQLite "Database
  File Format" document.
* **Job queue.** Workers, the sweeper, the reaper and enqueuers interleave as atomic SQL statements over one table.
* **Cron and the scheduler.** A parser of five-field expressions, a skip-ahead search for the next firing, and the tick
  that fires and advances schedules.

`dafny verify dfyconfig.toml` checks everything.

## Layout

| file | content |
|---|---|
| `Options.dfy`, `Text.dfy` | optional values; the string functions of Go's library that are used |
| `Wal.dfy`, `WalScan.dfy`, `WalLayout.dfy` | the scan of a WAL, what it computes, and the bytes it reads |
| `Sqlite.dfy` | the reader's view, and the machine: write, reset, backfill, truncate |
| `Segments.dfy` | segments, their order, and what replaying them rebuilds |
| `Engine.dfy`, `EngineProofs.dfy`, `EngineTheorems.dfy`, `EngineLimits.dfy` | the whole backup system as a state machine: steps and invariant, preservation, theorems over runs, counterexamples |
| `Restore.dfy`, `Retention.dfy`, `BackupManager.dfy`, `Names.dfy` | the restore algorithm, pruning, the engine object, object names |
| `Calendar.dfy`, `CronParser.dfy`, `CronNext.dfy`, `CronHorizon.dfy`, `CronMeaning.dfy`, `Scheduler.dfy` | dates, expressions, the search, its horizon, its answers for the usual expressions, the schedule table |
| `JobQueue.dfy`, `JobStatements.dfy`, `JobInvariants.dfy`, `JobLimits.dfy`, `JobAttempts.dfy`, `JobSurprises.dfy`, `JobManager.dfy` | the table and its steps, what each statement writes, invariants, caps and rates, the attempts bound, counterexamples, a node's manager |

## How the main results fit together

**Backup.** `Engine.Step` is any step of the system. SQLite's writers work at any time, also while a call of the engine
holds its lock: commits, rolled-back or torn tails, a reset under fresh salts. `sync` is two steps, the scan with its
ship and the checkpoint with the boundary of that scan; `takeSnapshot` is two, the checkpoint and the upload of the
copied file; either part may fail or do some of its work, and an upload may be stored and yet reported as failed. The
engine may restart, and time passes.

`EngineTheorems.ReachableInv` keeps `Engine.Inv` over every run, without a safety hypothesis on those steps. What can
go wrong is part of the state instead: when a WAL cycle ends (the file is emptied, or started again) with transactions
the current generation does not have, its history is marked `lost` at that point. From the invariant follow:

* a restore at any timestamp is the live database of the very state whose ship was the generation's last at or before
  it, or the snapshot, for every ship up to the first loss (`RestoreReturnsToALiveState`); a generation that ships
  nothing after its loss, as when a new one is opened, is exact throughout;
* for every ship, whatever was lost before, it is that database if and only if, when the ship was made, each page the
  WAL left to the main file was there as the backend had it (`RestoreReturnsIff`): later transactions that rewrite the
  lost pages make restores right again;
* a loss has one cause (`LossHasACause`), and the end of a cycle costs nothing if and only if the segments rebuild the
  live database (`LossIsExact`, `InStepAfterTruncate`), which is if and only if every page that the unshipped
  transactions write already is in that database as they leave it, and the size too (`LossPageByPage`). A checkpoint
  that completes without emptying the WAL costs nothing by itself (`ShipAfterCheckpoint`);
* two ordinary ways to a loss are runs of the model: a commit between the scan and the TRUNCATE of one `sync`
  (`CommitDuringSyncIsLost`), and an upload that fails after its checkpoint (`FailedUploadLosesATransaction`). Such
  runs exist from a fresh start, with real log files (`SomeCommitIsLost`, `SomeFailedUploadLoses`);
* once everything is shipped, the latest restore is the live database if and only if the same page condition holds, and
  so when nothing was lost (`RestoreIsLive`), as long as the current generation is the youngest. It stays so unless an
  upload is stored and reported as failed (`NewestStays`); the generation stored then is what every latest restore
  picks until the next snapshot succeeds (`LatestIsCurrent`, `OpenedIsNewest`), and it never gets a segment
  (`OrphanStaysAsUploaded`);
* a restore before the first ship returns the copied file, which shows the commit a reader held the checkpoint at if
  and only if the pages left out of the copy had that content already (`EarlyRestoreShowsCommit`), and otherwise
  perhaps no commit at all (`RestoreOfAHalfCopiedFile`);
* the segments of an index are one WAL cycle without a gap (`SegmentsAreWholeCycles`).

`BackupManager.Manager` and `Restore.Restore` are the imperative code, tied to those definitions. `WalLayout` ties the
scan to the bytes: the checksum is the Fibonacci-weighted sum of the format's document, and headers and frames are
given word by word.

The hypotheses that remain are explicit in the steps:

* the scan and the read of one `sync` find the same WAL cycle (`ReadAfterReset` and `AnyReadKeepsShipped` say what a
  reset in place between the two ships);
* a failed segment write stores nothing (`Segments.DuplicateStopsReplay` says what happens otherwise); a failed
  snapshot upload may;
* the engine's clock never goes back, and generation ids are never reused; two generations may be opened at the same
  instant, and then the latest restore may pick either (`LatestIsCurrent`);
* only the engine checkpoints; a new WAL cycle has salts no earlier cycle had, and its header is written in one piece;
* a transaction that grows the database writes every new page (`Sqlite.GrowingTransactionsSuffice` derives the rule the
  machine uses).

**Cron.** `CronNext.Next` is the loop of the source and returns what the minute-by-minute search returns, because every
jump moves forward and skips no firing. `CronHorizon.Horizon` says exactly when its five-year window is too short.
`Scheduler.EveryMatchFiresOnce` builds on both, and `Scheduler.EveryMatchHasOneJob` carries it to the jobs in the
table. `CronMeaning` anchors the meaning in dates: from the text of a daily, weekly, monthly or yearly expression to
the one minute that is the answer.

**Queue.** The claim counts as its SQL does: its two COUNT subqueries cover the rows of every type, so that the limits
bound what they promise to bound and also refuse claims for what other types do (`JobLimits.OtherTypesCount`).
`JobQueue.Step` includes the finalise of a worker whose job was swept: it asks neither status nor owner. The invariants
hold all the same, the bound on attempts counts the claims made on a copy that lagged behind, and finished jobs stay
finished while sweeps spare live handlers (`JobLimits.FinishedJobsStayFinished`). `JobStatements` gives every column
that a statement writes, and so that a job waits for its run_at, after a retry as before
(`JobStatements.BackoffIsKept`).

## Where the code and its documentation disagree

The model follows the code.

* `backup.go:405-410` says replay covers whatever a checkpoint left behind. It does from the first ship on; a restore
  to a moment before it returns the copied file alone (`EngineLimits.RestoreOfAHalfCopiedFile`).
* `backup.go:372-374` calls the WAL fully shipped when it is truncated. It was at the scan; what was committed since is
  folded into the file and not shipped (`EngineLimits.CommitDuringSyncIsLost`).
* `backup.go:424-427` keeps the old generation when the upload of a snapshot reports an error. If the object was stored
  all the same, `backup.go:512-519` restores the new one, and what is shipped goes to the old
  (`EngineTheorems.OrphanStaysAsUploaded`).
* `backup.go:124-126` says point-in-time restore works within the retention window. Pruning deletes a generation by its
  start, so timestamps between the cutoff and the first generation kept are lost (`Retention.RestorePointAfterPrune`,
  `Retention.RetentionWindowHasAHole`).
* `jobs/cron.go:133-135` says five years cover leap days. Across 2100 they do not (`CronHorizon.LeapDayIsMissed`).
* `jobs/cron.go:163-165`: the deadline of a failed search is not a match, and the scheduler fires at it
  (`Scheduler.ImpossibleSchedulesFire`).
* `jobs/cron.go:121`: the counter of a huge step overflows and sets bits below the range
  (`CronParser.MaskIsDenotation`, `CronParser.MaskCanLeaveItsRange`).
* `jobs/scheduler.go:68-69` says missed ticks are not fanned out. The row advances from the time it fired, not from
  now, so every missed match is fired, one a tick (`Scheduler.PausedScheduleCatchesUp`).
* `jobs/enqueue.go:195`, `jobs/enqueue.go:212-214` and `jobs/doc.go:38-40` give each type limits of its own. In
  `jobs/worker.go:86-98` the counting subqueries select from `colmena_jobs` without an alias, so `colmena_jobs.type` is
  the type of the counted row: the cap counts the running rows of all types, and the rate limit the starts of all
  limited types, each in its own period. A type below its own limits is refused if and only if the others fill them
  (`JobLimits.RefusedByOthersCap`, `JobLimits.RefusedByOthersRate`), as in `JobSurprises.CapBlocksAnotherType` and
  `JobSurprises.RateBlocksAnotherType`.
* `jobs/enqueue.go:195` and `jobs/enqueue.go:212-214` promise bounds on executions. The statements bound rows; when
  that bounds executions too is `JobLimits.ExecutionsWithinCap` and `JobLimits.ExecutionsWithinRate`, and when not,
  `JobSurprises`.
* `jobs/worker.go:59-61` says a stale candidate is harmless. Its attempt count decides between retry and dead
  (`JobSurprises.StaleCopiesRetryForEver`).

## Model

| member | source | states |
|---|---|---|
| Wal.WalChecksum | wal.go:75-89 | the loop over 8-byte chunks computes the checksum of section 4.2, in wrapping 32-bit arithmetic, for any byte string and either byte order |
| WalLayout.ChecksumIsWeightedSum | wal.go:75-89 | over n words the second sum is the sum of the words, word k weighted with Fibonacci number n - k, and the first leaves out the last word, modulo 2^32; a pair to start from counts like two words before them; words are given by powers of 256 |
| WalLayout.ChecksumFromNothing | wal.go:66 | started from (0, 0), as for a header, only the words count |
| Wal.ChecksumKeepsStatesApart | wal.go:75-89 | a checksum that differs once differs for ever: no later bytes, however chosen, bring two chains together |
| Wal.ChecksumDetectsOneChunk | wal.go:75-89 | damage confined to one aligned 8-byte chunk always changes the checksum |
| Wal.WalCommittedSize | wal.go:95-138 | for every byte string: "no WAL" exactly when the header is short or invalid, and otherwise the committed boundary of the recursive definition |
| WalScan.ScanIsExact | wal.go:111-137 | an offset is the result if and only if it is the end of the last commit frame in the longest run of frames with matching salts and a valid checksum chain (or the header's end without one) |
| WalScan.CommittedFramesEndAtLastCommit | wal.go:115-136 | the committed frames are the decoded frames up to that commit, in order |
| WalScan.ScanOfCut | wal.go:111-137 | cutting the file at the boundary and scanning again gives the same boundary, header and frames |
| WalScan.AppendingNeverLowers | wal.go:111-137 | appending any bytes never lowers the boundary |
| WalScan.ScanExtends | wal.go:111-137 | files that agree up to the boundary keep header and boundary, and the committed frames as a prefix, whatever follows |
| WalScan.FramesEndInCommit | wal.go:133-135 | committed frames are none or end in a commit frame |
| WalScan.EncodedHeaderParses | wal.go:45-71 | a header written by the rules parses to its fields |
| WalLayout.HeaderLayout | wal.go:45-71 | for every byte string, which error it is, or which header: magic, page size, salts and checksum by their words and the weighted sums of the first six |
| WalLayout.LegalSizesArePowers | wal.go:61-63 | the legal page sizes are 2^9 to 2^16 |
| WalLayout.LegalSizesHaveOneBit | wal.go:61-63 | and those are the numbers from 512 to 65536 that the source's test on bits accepts |
| WalLayout.SampleHeaderParses | wal.go:24-71 | a header given in bytes, whatever follows it, reads as page size 4096, salts 1 and 2, and its checksum |
| WalLayout.FrameLayout | wal.go:119-135 | a frame is valid, a commit, and decodes by its words: page, size, salts, and the weighted sum continued over its first 8 bytes and its page |
| WalScan.ScanInvertsWriting | wal.go:45-138 | writing a header and frames by the rules, then anything that is not a valid next frame (a torn frame, frames of an earlier cycle), and scanning gives back the header and the frames up to the last commit |
| WalScan.OtherSaltsAddNothing | wal.go:115-124 | bytes after the boundary that begin with a frame of other salts add no frames |
| Sqlite.GrowingTransactionsSuffice | backup.go:405-412 | if each transaction writes the pages by which it grows the database, pages the WAL does not hold were never cut off by it |
| Sqlite.OverlaysAreTheSame | backup.go:405-412 | two files show the same database under a WAL if and only if each page the WAL leaves to the file is the same in both |
| Sqlite.CheckpointIsInvisible | backup.go:379-387 | whatever a checkpoint achieves, readers see the same database |
| Sqlite.CompleteCheckpoint | backup.go:399-401 | a checkpoint that copied every page's last frame and cut the file to size leaves the live database in the main file |
| Sqlite.HeldBackCheckpoint | backup.go:382-387 | copying the pages whose last frame a reader lets pass is a legal partial checkpoint |
| Sqlite.HeldBackShowsCommit | backup.go:405-413 | the file such a checkpoint leaves shows the state of commit k if and only if the pages left out of the copy had their content at k already |
| Sqlite.CommitAlignedBackfill | backup.go:382-387 | copying the transactions up to a commit is a legal partial checkpoint |
| Sqlite.MainIsABase | backup.go:405-413 | the main file, however far a checkpoint got, is itself a base the WAL can be replayed over |
| Sqlite.WriteKeepsBase | backup.go:328-335 | writes past the boundary keep the base, the header, and the committed frames as a prefix |
| Sqlite.BackfillKeepsBase | backup.go:379-387 | a partial checkpoint keeps the base and the live database |
| Sqlite.TruncateEndsCycle | backup.go:388-389 | after a TRUNCATE the main file is the base with the whole cycle folded in, and is live |
| Sqlite.ResetEndsCycle | backup.go:328-332 | after a reset in place the main file is the base with the whole old cycle folded in |
| Segments.RebuiltIsLongestRun | backup.go:578-624 | for any subset of one cycle's segments, sorted by offset, the rebuilt WAL is the longest contiguous run from byte 0, a prefix of the cycle, and empty if offset 0 is missing |
| Segments.UpToIsAPrefix | backup.go:550-560 | in ship order, the segments recorded up to a timestamp are a prefix |
| Segments.DeadlineIsACut | backup.go:550-560 | that prefix ends exactly where recording times pass the timestamp |
| Segments.ListingIsShipOrder | backup.go:543-548 | the sorted listing of a generation's stored segments is the order they were shipped in |
| Segments.ReplayAppend | backup.go:563-567 | replaying one more segment applies the whole newest cycle to what the older ones rebuild |
| Segments.DuplicateStopsReplay | backup.go:593-596 | with two objects under one index and offset, replay writes the first and nothing after it |
| EngineProofs.WritersKeepInv | backup.go:405-410 | what SQLite's writers do, at any time, keeps the invariant |
| EngineProofs.ShipKeepsGeneration | backup.go:340-368 | a ship extends its index contiguously to the committed boundary; while nothing is lost, the generation then rebuilds the live database |
| EngineProofs.RollKeepsInv | backup.go:328-335 | new salts start a new index at offset 0; otherwise the shipped bytes are the beginning of this WAL |
| EngineProofs.SyncShipsKeepsInv | backup.go:312-369 | a sync up to its checkpoint, with scan and read of one WAL cycle, keeps the invariant whatever its upload does; when it succeeds, nothing is left to ship at that moment |
| EngineProofs.UnshippedIsTheDifference | backup.go:340-368 | the unshipped transactions change nothing if and only if the backend can rebuild the live database |
| EngineProofs.CycleEndKeepsInv | backup.go:328-332 | the end of a WAL cycle keeps the invariant: what the generation loses by it is recorded |
| EngineProofs.CheckpointKeepsInv | backup.go:379-387 | so does a checkpoint that truncates, fails or is held back, whatever was still to ship; readers see no change |
| EngineProofs.SyncCheckpointsKeepsInv | backup.go:375-391 | maybeCheckpoint keeps the invariant, whatever was committed since the scan |
| EngineProofs.CompactsKeepsInv | backup.go:399-403 | the checkpoint before a snapshot keeps it, whatever was still to ship |
| EngineProofs.OpenedKeepsInv | backup.go:413-433 | a new generation starts in step, even over a WAL that readers pin |
| EngineProofs.OrphanKeepsInv | backup.go:423-427 | a generation stored by an upload that reported an error leaves the one being shipped to sound |
| EngineProofs.OpensKeepsInv | backup.go:413-437 | the upload keeps the invariant, whether it succeeds, fails, or stores the object and reports an error |
| EngineProofs.PruneKeepsInv | backup.go:442-460 | deleting old generations, or some of them, keeps the invariant |
| EngineProofs.StepKeepsInv | backup.go:240-267 | every step of SQLite and engine, in any order, keeps the invariant |
| EngineTheorems.ReachableInv | backup.go:240-267 | the invariant holds in every state of every run |
| EngineTheorems.RestoreIsReplay | backup.go:492-567 | a database is a result of Restore for a generation if and only if the generation may be chosen and the database is the replay of its ships up to the timestamp, in the order they were made |
| EngineTheorems.PointInTimeRestore | backup.go:512-567 | a restore at a timestamp is the database recorded with the last ship of the chosen generation at or before it, or its snapshot, for ships up to the first loss |
| EngineTheorems.HistoryIsTrue | backup.go:356-368 | over a run, each recorded database was the live one in the state that shipped it, at the time in the segment's name; that step left nothing to ship, and what it shipped is still stored |
| EngineTheorems.RestoreReturnsToALiveState | backup.go:492-574 | over a run, a restore gives the live database of the one state that shipped last by then, for ships up to the first loss, and the chosen snapshot when nothing was shipped by then |
| EngineTheorems.RestoreReturnsIff | backup.go:492-574 | over a run, whatever was lost, a restore is the live database of the state that shipped last by then if and only if the main file matched the backend, on the pages the WAL left to it, at that ship; and the snapshot when nothing was shipped by then |
| EngineTheorems.SnapshotIsTheFile | backup.go:405-433 | over a run, each snapshot is the main file of the state that opened its generation: a base of that state's live database, and that database itself when all was backfilled |
| EngineTheorems.ShippedIsLiveIff | backup.go:312-370 | with nothing left to ship, whatever was lost, snapshot and segments rebuild the live database if and only if each page the WAL leaves to the main file is there as the backend has it |
| EngineTheorems.ShippedIsLive | backup.go:312-370 | with nothing left to ship and nothing lost, snapshot and segments rebuild the live database |
| EngineTheorems.LatestIsCurrent | backup.go:512-519 | without a timestamp, Restore may pick the current generation if and only if none is younger, and then any other only if it was opened at the same instant |
| EngineTheorems.NewestStays | backup.go:417-433 | only an upload that was stored and reported as failed makes a younger generation than the current one |
| EngineTheorems.OpenedIsNewest | backup.go:429-430 | a snapshot that succeeds is the youngest again |
| EngineTheorems.OrphanStaysAsUploaded | backup.go:423-427 | over a run, the generation of such an upload keeps its snapshot and gets no segment: every restore that picks it returns the file of that moment |
| EngineTheorems.RestoreIsLive | backup.go:492-574 | with nothing left to ship and the current generation alone the youngest, every latest restore picks it, and is the live database if and only if the main file matches the backend below the WAL; so when nothing was lost |
| EngineTheorems.PinnedSnapshotReplays | backup.go:405-412 | however much of a pinned WAL is already in the copied file, replaying the WAL from byte 0 over the copy or over the original gives the same database |
| EngineTheorems.FirstSegmentCoversBackfill | backup.go:340-356 | the first segment of a generation starts at byte 0 and holds every frame checkpoints have dealt with; pages whose last frame they passed are in the file as the segment has them |
| EngineTheorems.SegmentsAreWholeCycles | backup.go:328-367 | in every reachable state the segments of an index are contiguous from 0, end at a commit (or the header) of one salt cycle, are rebuilt whole, and for the current index end at the tracked offset |
| EngineTheorems.LossHasACause | backup.go:375-427 | over a run, every loss comes from a step that ends a WAL cycle while the live database is not what the segments rebuild |
| EngineTheorems.LossIsExact | backup.go:375-427 | the end of a cycle loses nothing if and only if the unshipped transactions change nothing, if and only if the segments rebuild the live database |
| EngineTheorems.ShipAfterCheckpoint | backup.go:382-387 | a checkpoint that leaves the WAL in place, complete or not, costs nothing: the next ship makes the segments rebuild the live database |
| EngineTheorems.InStepAfterTruncate | backup.go:379-390 | after a checkpoint emptied the WAL, the segments fit the files again if and only if they rebuilt the live database |
| EngineTheorems.UnshippedPages | backup.go:375-427 | over a database whose pages lie within its size, or after shipped frames, transactions change nothing if and only if they keep the size and write every page that is left as it was |
| EngineTheorems.LossPageByPage | backup.go:375-427 | in every state of the invariant, the end of a cycle loses nothing if and only if the unshipped transactions keep the size of the database the segments rebuild and write every page that is left as it is there |
| EngineTheorems.ShippingInTimeLosesNothing | backup.go:372-374 | over runs in which everything is shipped when a cycle ends, no generation ever loses anything |
| EngineTheorems.RestoreUpToTheGap | backup.go:578-624 | with a segment missing and nothing of a later index there, a restore is that of the segments before the gap |
| EngineTheorems.ReadAfterReset | backup.go:320-352 | a read, from byte 0 to an old boundary, of a WAL that was started again holds whole first transactions of the new cycle, and shipping that cycle over them as the next index gives what it alone would |
| EngineTheorems.AnyReadKeepsShipped | backup.go:340-352 | whatever bytes a read adds to an index, the transactions shipped before stay its first ones, and all of them when the bytes begin with a frame of another cycle |
| EngineLimits.CommitDuringSyncIsLost | backup.go:320-379 | a run in which a transaction is committed between scan and TRUNCATE; after the next ship nothing is left to ship, and every latest restore returns one database that is not the live one and lacks that transaction |
| EngineLimits.FailedUploadLosesATransaction | backup.go:401-427 | a run in which an upload fails after its checkpoint; after the next ship nothing is left to ship, and every latest restore returns one database that is not the live one and lacks a committed transaction |
| EngineLimits.UnshippedIsReached | backup.go:229-238 | the state both runs start from is reached from a fresh start |
| EngineLimits.SomeCommitIsLost | backup.go:320-379 | from a fresh start, with no step failing, there is such a run of the first kind, with log files that the scan reads |
| EngineLimits.SomeFailedUploadLoses | backup.go:401-427 | and one of the second kind |
| EngineLimits.EarlyRestoreShowsCommit | backup.go:512-536 | before the first ship, a restore of a file copied under a reader at commit k shows that commit if and only if the pages left out had that content already |
| EngineLimits.RestoreOfAHalfCopiedFile | backup.go:399-413 | a run from a fresh start, and a restore to the moment of its snapshot that shows no committed state |
| EngineLimits.MissingIndexIsExact | backup.go:563-567 | with an index missing, later ones are applied all the same; the result is what it would have been if and only if each page the last index does not write is the same with and without the missing one |
| EngineLimits.MissingIndexMixes | backup.go:563-567 | the second of two shipped cycles alone gives a database that is neither the snapshot nor the one after either ship |
| Restore.SortGenerations | backup.go:512 | the generations, newest first, none lost or repeated |
| Restore.SortSegments | backup.go:543-548 | the stored segments sorted by index and offset, as a listing of exactly those stored |
| Restore.ApplyWALIndex | backup.go:578-646 | the loop over one index writes the contiguous prefix and folds its committed frames into the database, or nothing when offset 0 is missing |
| Restore.GroupByIndex | backup.go:550-561 | grouping splits the selected segments by index without loss, indexes ascending |
| Restore.RollForward | backup.go:550-567 | applying the groups in order is replaying the selected segments |
| Restore.Restore | backup.go:492-574 | errors exactly when there is no backup or no generation at or before the timestamp, and otherwise restores the newest such generation |
| Retention.PruneKeepsSelection | backup.go:442-460 | with generations at most S apart, a timestamp S or more after the cutoff picks the same generation before and after a prune, failed deletions included; the current one survives |
| Retention.PruneKeepsRestores | backup.go:442-460 | and every such restore gives the same database |
| Retention.RestorePointAfterPrune | backup.go:442-460 | after any prune, a timestamp keeps its generation if and only if that survived, which with every deletion succeeding is if and only if it is the current one or not older than the cutoff; otherwise it finds an older one whose deletion failed, or none when no generation at or before it is left |
| Retention.RetentionWindowHasAHole | backup.go:124-126 | a timestamp inside the retention window for which the prune leaves nothing to restore |
| BackupManager.Manager.ShipCommitted | backup.go:312-368 | sync up to its checkpoint is that step of the system; it fails if and only if there is something past the offset to ship and it is not stored; when there is and it is, the backend has exactly one object more, named by index, offset and time, with the bytes from the offset to the boundary, and the offset is the boundary; what is stored then rebuilds the live database while nothing is lost |
| BackupManager.Manager.MaybeCheckpoint | backup.go:375-391 | below the threshold, or with bytes of the scan still to ship, nothing changes; otherwise the files are as the checkpoint left them, an error is reported if it failed, and the index moves on exactly if it did not and the file shrank to zero |
| BackupManager.Manager.Sync | backup.go:312-370 | with writers at work in between, the call is its two steps, each with its exact outcome; it reports an error exactly when the one or the other does; without one, what is stored rebuilds the database that was live at the scan |
| BackupManager.Manager.Compact | backup.go:396-413 | takeSnapshot up to its copy is that step; a fully backfilled file is the live database |
| BackupManager.Manager.Open | backup.go:417-437 | the rest of it: success opens a generation holding the copy, starts the tracking anew and leaves exactly the generations the prune may not or could not delete; failure changes nothing, but for the object when it was stored all the same |
| BackupManager.Manager.TakeSnapshot | backup.go:395-437 | with writers at work in between, the call is its two steps, stores the file as it was copied, and prunes as above |
| BackupManager.Manager.PruneLocked | backup.go:442-460 | deletes exactly the generations before the cutoff, except the current one and those whose deletion fails |
| Names.SegmentNameReadsBack | backup.go:70-88 | parsing a printed segment name gives back index, offset and time, for all non-negative 63-bit fields |
| Names.SegmentNamesSort | backup.go:70-72 | byte order of segment names is the order on (index, offset, time), both ways |
| Names.GenerationNameReadsBack | backup.go:91-108 | the creation time in a generation id is recovered |
| Names.GenerationNamesSort | backup.go:91-95 | generation ids sort by creation time |
| Names.NamesFollowListing | backup.go:543-548 | the order restore sorts by is the byte order of the names |
| Names.SampleNames | backup.go:70-95 | the names of a segment and a generation at given numbers, in full |
| Text.ParseIntReadsDec | jobs/cron.go:81-109 | printing a number in base 10 and parsing it gives it back |
| Text.ParseIntReadsSigns | jobs/cron.go:81-109 | a sign in front is read, and what does not fit 64 bits, or is only a sign, is refused |
| Text.ParseIntRefuses | jobs/cron.go:81-109 | a character that is neither digit nor sign makes it no number |
| Text.SplitUndoesJoin | jobs/cron.go:67 | splitting at commas undoes joining with them |
| Text.FieldsUndoJoin | jobs/cron.go:36 | the fields of words joined by spaces are the words |
| CronParser.ParseRange | jobs/cron.go:77-125 | a part is an error exactly when it does not parse or is out of bounds, and otherwise its mask is that of the counting loop in 64-bit arithmetic, which always ends |
| CronParser.MaskIsDenotation | jobs/cron.go:88-124 | the mask of an accepted part is the set of values the part denotes if and only if first + 2 * step stays below 2^64 |
| CronParser.DenotationOfForms | jobs/cron.go:25-33 | each documented form denotes what the comment says: a star, a literal, a range, in steps from its start; a literal with a step runs to the end |
| CronParser.WrappedStepSetsALowerBit | jobs/cron.go:121-123 | beyond that, the counter wraps twice and sets a bit below the first value |
| CronParser.MaskCanLeaveItsRange | jobs/cron.go:121-123 | such a bit can lie outside the field's range |
| CronParser.ParseField | jobs/cron.go:62-75 | a field is an error exactly when a part is, and otherwise the union of the parts' masks |
| CronParser.FieldMaskShape | jobs/cron.go:62-125 | accepted masks permit a value of the range and none above it; none below it when no step wraps |
| CronParser.FieldMeansItsParts | jobs/cron.go:62-125 | printing a list of parts and parsing it gives the union of their denotations |
| CronParser.ParseCron | jobs/cron.go:35-60 | succeeds with the schedule of the expression, or reports the field count or the first bad field |
| CronParser.ParsedSchedulesPermit | jobs/cron.go:35-60 | every field of a parsed schedule permits a value of its range, whatever the steps |
| CronParser.ExpressionMeansItsFields | jobs/cron.go:22-60 | writing five fields and parsing the expression gives the schedule they mean, with the star flags set for a lone star only |
| CronMeaning.ExpressionParses | jobs/cron.go:22-60 | an expression with a number or a star in each field is accepted, and permits those numbers and everything under the stars |
| CronMeaning.NumberInField | jobs/cron.go:42-56 | a number is accepted in 0-59, 0-23, 1-31, 1-12 and 0-6 exactly |
| Calendar.WeekdaysFollow | jobs/cron.go:174 | 1 January 1970 is weekday 4, a Thursday, and each day's weekday is the next modulo 7 |
| Calendar.WeekdayByWeeks | jobs/cron.go:174 | two days have one weekday if and only if they are whole weeks apart, counted from Sunday, 4 January 1970 |
| Calendar.MonthLengths | jobs/cron.go:141-148 | the lengths of the months, with 29 days of February in leap years |
| Calendar.FourCenturies | jobs/cron.go:141-148 | the calendar repeats after 400 years of 146097 days; which of some years are leap years; 1 January of year 1 is day 0 |
| Calendar.YearsFollow | jobs/cron.go:141-148 | each year starts 365 or 366 days after the one before, by the Gregorian leap rule |
| Calendar.DatesAndDays | jobs/cron.go:141-148 | dates and day numbers correspond one to one |
| CronNext.NaiveIsFirst | jobs/cron.go:129-167 | the minute-by-minute search gives r if and only if r is the least match in the window, or the deadline when there is none |
| CronNext.SkipMonth | jobs/cron.go:139-144 | jumping to the first of the next month moves forward and skips no match |
| CronNext.SkipDay | jobs/cron.go:145-150 | jumping to the next midnight moves forward and skips no match |
| CronNext.SkipHour | jobs/cron.go:151-156 | jumping to the next full hour moves forward and skips no match |
| CronNext.Next | jobs/cron.go:129-167 | the skip-ahead search ends, for every mask and time, with what the minute-by-minute search gives, strictly after t |
| CronMeaning.FiresOnDate | jobs/cron.go:169-186 | a minute of a date matches if and only if month, hour and minute are permitted and its day is: by day of the month or weekday, whichever is no star, by either when neither is, and any when both are |
| CronMeaning.EitherDayField | jobs/cron.go:182-185 | with both day fields restricted the search finds the earlier of what it finds for each alone |
| CronMeaning.DailyNext | jobs/cron.go:129-167 | for `m h * * *`, the one minute of the next 24 hours with that time of day |
| CronMeaning.WeeklyNext | jobs/cron.go:129-186 | for `m h * * d`, the one minute of the next seven days with that time of day, whole weeks after weekday d of the week of 4 January 1970 |
| CronMeaning.MonthlyNext | jobs/cron.go:129-186 | for `m h D * *` with D up to 28, that day of this month if it is still to come, or else of the next |
| CronMeaning.YearlyNext | jobs/cron.go:129-186 | for `m h D M *` with a date that every year has, that date of this year if it is still to come, or else of the next |
| CronMeaning.MondayMorning | jobs/cron.go:129-186 | `0 9 * * 1` on Sunday, 7 January 2024 gives Monday, 8 January, 09:00 |
| CronHorizon.EveryYearFires | jobs/cron.go:133-136 | a parsed schedule that does not rest on 29 February fires within two years of any start |
| CronHorizon.LeapOnlyDay | jobs/cron.go:169-186 | a schedule without any other date fires on exactly the leap days |
| CronHorizon.Satisfiable | jobs/cron.go:133-136 | a parsed schedule fires at some time if and only if it fires every year or on leap days |
| CronHorizon.Horizon | jobs/cron.go:133-166 | the search misses a schedule that fires some day if and only if it is one of 29 February only and the window lies between the leap days around a century year without one |
| CronHorizon.LeapDayIsMissed | jobs/cron.go:133-166 | from 1 March 2096 such a schedule is missed: the search returns 1 March 2101, its deadline, which is not a match |
| CronHorizon.LeapDayExpression | jobs/cron.go:133-166 | `0 0 29 2 *` parses to such a schedule |
| CronHorizon.ImpossibleExpression | jobs/cron.go:133-136 | `0 0 31 2 *` parses to a schedule that never fires |
| Scheduler.NextMilli | jobs/scheduler.go:88 | the search in milliseconds and back is the search on minutes, strictly after the given time |
| Scheduler.UnixTimes | jobs/scheduler.go:71 | time 0 is midnight of 1 January 1970, and a time of 2024 has its milliseconds |
| Scheduler.FiringsFormAChain | jobs/scheduler.go:61-98 | over any run of ticks, whatever fails and however the clock moves, the jobs of a schedule form one chain from its registered time, each due by its tick's clock |
| Scheduler.JobsAreFirings | jobs/scheduler.go:61-98 | over any run of ticks on the whole table, the jobs inserted for a schedule are its firings: as many, in order, each due when its firing was, of the registered type and payload |
| Scheduler.EveryMatchHasOneJob | jobs/scheduler.go:61-98 | with UPDATEs succeeding and a match in every window, the table gets exactly one job for each match from the registered one up to next_run_at, ascending |
| Scheduler.LastRunIsRecorded | jobs/scheduler.go:88-98 | last_run_at is the time of the last firing whose UPDATE succeeded |
| Scheduler.DisabledRowsRest | jobs/scheduler.go:36-40 | a disabled schedule has nothing inserted, and stays as it is |
| Scheduler.EveryMatchFiresOnce | jobs/scheduler.go:61-98 | with UPDATEs succeeding and a match in every window, the run times are exactly the matches from the registered one up to next_run_at, ascending |
| Scheduler.FoundUnlessGap | jobs/cron.go:133-166 | for a parsed schedule that fires at all, a match is in the window if and only if the century gap is not |
| Scheduler.RepeatsComeFromFailedUpdates | jobs/scheduler.go:86-98 | the run times ascend strictly if and only if every UPDATE but the last job's succeeded |
| Scheduler.ImpossibleSchedulesFire | jobs/scheduler.go:86-98 | a schedule that never matches is fired at the search's deadline |
| Scheduler.ImpossibleExpressionFires | jobs/scheduler.go:86-98 | so is `0 0 31 2 *` |
| Scheduler.PausedScheduleCatchesUp | jobs/scheduler.go:61-98 | n successful ticks at late enough clocks fire exactly the next n times, one a tick |
| Scheduler.RegistrationDuringTickIsOverwritten | jobs/scheduler.go:86-98 | a row registered again during a tick keeps its expression and loses its time to the old one's |
| Scheduler.Table.Register | jobs/enqueue.go:148-180 | a bad expression changes nothing; otherwise the row is replaced with the next match after now, keeping last_run_at |
| Scheduler.Table.Unschedule | jobs/enqueue.go:184-193 | only disables the row |
| Scheduler.Table.FireRow | jobs/scheduler.go:61-98 | one row's part of a tick, as the query returned it: INSERT first, then the advance of the row as it is now, each of which may fail |
| Scheduler.Table.SchedulerOnce | jobs/scheduler.go:33-100 | a tick moves every row as the run above says and inserts one job for each row that fires, none for the others |
| JobInvariants.StepKeepsInv | jobs/worker.go:76-236 | every statement, stale finalises included, keeps: running rows have claim and start set, pending rows have neither, terminal rows have an end, one live row per unique key |
| JobInvariants.RunKeepsInv | jobs/schema.go:40-42 | so do whole runs, under any interleaving |
| JobStatements.InsertWrites | jobs/enqueue.go:104-132 | an INSERT takes effect exactly when neither id nor live key is taken, and adds a row nobody has claimed |
| JobStatements.ClaimTakesEffect | jobs/worker.go:76-100 | when the claim takes effect, in terms of the rows: pending, due, fewer running than the cap, fewer recent starts than the capacity |
| JobStatements.ClaimWrites | jobs/worker.go:76-118 | it writes status, claim marks and start, counts one attempt, and nothing else |
| JobStatements.FinalOutcomeWrites | jobs/worker.go:158-209 | success and the last failure write status, end and error, and nothing else |
| JobStatements.OpenOutcomeWrites | jobs/worker.go:174-236 | a failure with attempts to spare makes the row pending at the end of its backoff with its error; no handler makes it pending as before with one attempt less, not below 0; both only if its key is free |
| JobStatements.SweepWrites | jobs/sweeper.go:36-48 | exactly the running rows claimed more than their timeout ago become pending, with the note added to their error |
| JobStatements.WaitingJobWaits | jobs/worker.go:76-85 | over any run, a pending row is unchanged as long as claims of it come before its run_at and no earlier run of it ends |
| JobStatements.BackoffIsKept | jobs/worker.go:211-236 | so after a retry, no claim of the job takes effect before its backoff is over |
| JobInvariants.RowsChangeByTheirSteps | jobs/worker.go:76-236 | which step may change a row's status, attempts and run_at, and to what; the columns it was inserted with never change |
| JobInvariants.FinishedRowsRevive | jobs/worker.go:174-230 | a finished row becomes live again if and only if a run of it ends unhandled or with a failure still to retry, and its unique key is free |
| JobInvariants.ReapTakesExpiredRows | jobs/reaper.go:47-57 | the reaper removes exactly the terminal rows that ended before the cutoff |
| JobLimits.RunningRows | jobs/worker.go:76-100 | only a claim that the SQL lets through adds a running row of the type, and adds one |
| JobLimits.StepKeepsCap | jobs/worker.go:86-90 | while a cap is unchanged, no step takes the running rows of the type above it |
| JobLimits.RunKeepsCap | jobs/worker.go:86-90 | nor does a run |
| JobLimits.StepKeepsRate | jobs/worker.go:91-98 | while a rate limit is unchanged, no step puts more starts of the type into a half-open window of the period than it allows, for arbitrary clocks |
| JobLimits.RunKeepsRate | jobs/worker.go:91-98 | nor does a run |
| JobLimits.OtherTypesCount | jobs/worker.go:86-98 | a claim that takes effect is within the limits of its own type; one within them takes effect if and only if there is still room with the running rows of the other types, and with the starts of the other limited types, added |
| JobLimits.RefusedByOthersCap | jobs/worker.go:86-90 | below its own cap, a type is refused by it if and only if its running rows and those of the other types together reach it |
| JobLimits.RefusedByOthersRate | jobs/worker.go:91-98 | below its own rate, a type is refused by it if and only if its starts and those of the other limited types, each in its own period, together reach it |
| JobLimits.StartsAreAccountedFor | jobs/worker.go:91-98 | over any run, starts in a window plus those recorded before equal those recorded after plus the records lost |
| JobLimits.ExecutionsWithinRate | jobs/enqueue.go:212-214 | executions that start in a window exceed the limit by at most the records lost to retries, releases, sweeps and reaps |
| JobLimits.StepKeepsOwned | jobs/sweeper.go:36-48 | handlers stay matched one to one with running rows if and only if no sweep takes a job from a live handler |
| JobLimits.FinishedRowsRest | jobs/worker.go:155-235 | while handlers are matched with running rows, a finished row that is kept does not change |
| JobLimits.FinishedJobsStayFinished | jobs/worker.go:155-235 | over runs whose sweeps reclaim only jobs of dead workers, a finished job stays as it finished until it is reaped |
| JobLimits.ExecutionsWithinCap | jobs/enqueue.go:195-196 | over runs whose sweeps reclaim only jobs of dead workers, the cap bounds the handlers at work |
| JobAttempts.StepKeepsJobInv | jobs/worker.go:76-235 | the books of one job's claims, retries, sweeps and releases balance after every step |
| JobAttempts.AttemptsAreBounded | jobs/worker.go:50-235 | over every interleaving, a job is claimed at most max(1, max_attempts) times, plus its sweeps, plus its releases for want of a handler, plus the claims made on a copy that lagged behind |
| JobAttempts.FreshAttemptsAreBounded | jobs/worker.go:50-235 | with find and claim one step, the last term is zero |
| JobSurprises.AttemptsReachTheBound | jobs/worker.go:193-235 | a job that always fails is claimed exactly that often |
| JobSurprises.StaleCopiesRetryForEver | jobs/worker.go:59-62 | with copies from a replica that lags, there is a run of n claims for every n, without sweep or release |
| JobSurprises.SweptJobRunsTwice | jobs/sweeper.go:36-48 | two handlers of a type at work under a cap of one |
| JobSurprises.RetriedStartIsForgotten | jobs/worker.go:220-230 | two executions start in a window whose limit is one |
| JobSurprises.CapBlocksAnotherType | jobs/worker.go:86-90 | from an empty queue, a run after which a due job under a cap of one, with no row of its type running, is refused because an uncapped job of another type runs |
| JobSurprises.RateBlocksAnotherType | jobs/worker.go:91-98 | from an empty queue, a run after which a due job of a limited type without any start is refused because another limited type started one |
| JobSurprises.StaleFailureRevivesAJob | jobs/worker.go:220-230 | the failure of a swept worker makes a succeeded job pending again |
| JobManager.Manager.Enqueue | jobs/enqueue.go:58-138 | inserts a fresh pending row enqueued now and due at the time given or now, whichever is later, or returns the id of a row that holds the key in a local copy, pending or running, or fails because the insert is refused; never two live rows with a key |
| JobManager.Manager.FindCandidate | jobs/worker.go:125-152 | a due pending job of a handled type, none of higher priority, and none of the same priority due earlier; none only when there is none |
| JobManager.Manager.TryClaim | jobs/worker.go:76-116 | takes effect exactly when the WHERE clause holds, with its counts over the rows of every type, and starts one run with the copy's attempt count plus one |
| JobManager.Manager.Finalise | jobs/worker.go:155-236 | writes the outcome whatever the row's state, retry or dead by the copy's counts; every run and failure stays accounted for in the counters |
| JobManager.Manager.SweepOnce | jobs/sweeper.go:32-56 | leaves no orphan, and reports exactly the rows it changed |
| JobManager.Manager.ReapOnce | jobs/reaper.go:47-67 | rows in the table and the reaped counter together are conserved |
| JobManager.Manager.SetConcurrency | jobs/enqueue.go:197-210 | the type is capped at a positive number or not at all; jobs, rate limits and other types' caps are as before |
| JobManager.Manager.SetRateLimit | jobs/enqueue.go:215-231 | the type is limited with the period in whole milliseconds, or not at all; all else is as before; with a period below a millisecond its windows are empty and no start of the type up to now counts |

## Left out

- gzip, files, S3 and its signatures, HTTP: compression is the identity, and the backend a map whose writes store all or nothing.
- The integrity check at the end of `Restore`, and errors of the file system and the backend's reads: they only turn a result into an error.
- `report`, `Status`, `OnError` and the loops with tickers and channels: each call is a step that may come at any time.
- B-trees, SQL parsing and locks inside SQLite: a page is a byte string, a checkpoint any legal outcome.
- Scheduler.Table.SchedulerOnce: takes the table as its query returned it; a registration during the tick is `Scheduler.Table.FireRow`.
- Time zones and daylight saving: all times are UTC, in the proleptic Gregorian calendar.
- Re-registration in the middle of a run of ticks: `Scheduler.EveryMatchFiresOnce` is about the ticks between registrations.
- CronHorizon.EveryYearFires: the bound of 732 days is not the least one for each schedule.
- JobAttempts.AttemptsAreBounded: assumes that the job's id is not inserted again after a reap, as ids are random. `Copied` asks only that a copy has the row's max_attempts, which no statement changes.
- JobLimits.ExecutionsWithinRate: bounds the excess by the records lost, and does not say which losses cause one.
- Scheduler.Table.FireRow: the inserted job's priority 0, default attempts and timeout, and lack of a unique key are not repeated in its record.
- Liveness and fairness of the queue: a capped candidate blocks other types in a poll, so work conservation is not what the code gives.
- `jobs/retry.go` and `jobs/id.go`: the delay of a retry and new ids are parameters.
- Payloads, handlers and their registry: a handler is an outcome; a claim's type filter only narrows the candidates.
- `driver.go`, `store.go`, `node.go`, `alert.go`, admin and metrics handlers: thin wrappers and user interface.
