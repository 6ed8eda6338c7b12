# Audit chain and agent services: a verified model

This project models the stateful core of the platform's backend and agent in Dafny and proves what that code keeps true.

- **The audit log.** `Record` appends rows to a hash chain under an advisory lock. `VerifyDeep`, `VerifyIncremental`
  and `VerifyTail` walk the chain; the archiver copies old rows out in id windows and later deletes them.
- **The analytics indexer.** A queue that puts a failed batch back at its head.
- **The gateway's handshake check.** A fingerprint cache in front of a database that changes under it.
- **The agent's certificate store.** One atomic rename between writes that can stop anywhere.
- **The brute-force shield.** Failures, lockouts and a background sweep.
- **Three pieces of byte arithmetic.** Re-tagging CMS signed attributes, cutting UTF-8 text to a budget, and comparing
  agent versions for the update gate.

The table of `audit_logs` is a sequence of rows with increasing ids. SHA-256, the RFC 3339 time format and the text of
an inet column are parameters (`ChainHash.Env`); no hash is assumed injective. A result that depends on the hash is a
reduction: either the property holds, or two named byte strings that differ have the same hash. (After a purge there is
one more way out that no hash function excludes: the first row's bytes may begin with the stored hash of a named later
row; `PurgedReaders.Deceived` spells both out.) SQL statements are single atomic steps; a database failure is an input
of the method that can meet it.

## How it fits together

`ChainSpec` defines the one specification of verification: the smallest row whose stored hash is not the one recomputed
from the stored hash before it. `AuditService` holds the imperative code, proved against it. `VerifierAgreement`
compares the three readers, `TamperEvidence` says what an accepted chain commits to, and three protocols put the same
state under concurrency: `RecordProtocol` (transactions, statement by statement), `CheckpointProtocol` (overlapping
full and incremental verifications on top of it) and `Archive` (appends, sweeps and purges). `PurgedReaders` says what
the three readers answer after a purge, `ChainedArchive` what they answer when records go on after it, and
`ArchivedChain` what an archive object still proves. Rows written before the time was hashed (V1) and after (V2) mix
freely in all of them. The remaining modules are independent of each other.

## Where the code and its documentation differ

The model follows the code.

- `agent/internal/certstore/certstore.go:84-87` says that a key which does not belong to the certificate is caught;
  `validate` accepts exactly the keys that parse (`CertStore.KeyIsNotMatched`, `CertStore.ReplacedKeyIsLoaded`).
- `backend/internal/audit/archive.go:342-343` says that a purge deletes only if every row of the range is present; the
  delete is unconditional. In every run the range is complete anyway (`Archive.PurgesFindCompleteRanges`).
- `backend/internal/audit/archive.go:173` calls the archive self-validating; its lines leave out the actor id, the user
  agent and the hash version, and determine the hashed bytes exactly up to those three
  (`Archive.LineDeterminesHashExactly`); with them every line verifies (`ArchivedChain.ObjectVerifies`).
- `row_count` is the number of due rows, not of serialised lines. The two are equal exactly when no younger row lies in
  the id range (`Archive.RowCountIsExact`, `Archive.MiscountIsReached`), and a sweep whose window starts above a row
  that is not yet due never comes back for that row (`Archive.SweepIsTight`, `Archive.SkippedForGood`,
  `Archive.SkipIsReached`).
- A purge deletes an id range that can lie between retained rows (`Archive.InnerPurgeIsReached`). Each reader then
  reports the first retained row that has a deleted one below it, both among the rows it reads, unless it is deceived
  there: `VerifyDeep` reads the whole table, `VerifyIncremental` what lies above its checkpoint, and `VerifyTail` what
  lies from its anchor on, or the whole table if fewer rows than its tail are left (`PurgedReaders.DeepReportsPurge`,
  `PurgedReaders.IncrementalAfterPurge`, `PurgedReaders.TailSurvivesPurge`). A row recorded after a purge is chained to
  the newest row that is left; `ChainedArchive` covers every interleaving of records, sweeps and purges.
- `VerifyTail` never asks whether its result set was complete: if it breaks off, a broken tail can be answered with 0
  (`VerifierAgreement.CutOffVerdict`). `OfferUpdate` and `purgeOldArchives` read their rows the same way.
- A row whose address does not come back from the database in the text that was hashed fails verification, unless two
  hashes collide (`ChainHash.WriteReadAgreement`, `ChainHash.CompatibleAddressIsUnstable`,
  `RecordProtocol.SerialIsChain`).
- `canonicalSignedAttrs` checks the length field only under tag 0xA0; an input that is already a SET OF passes
  unchecked, and content of 2^32 octets or more is rejected although it is legal DER
  (`SignedAttrs.AcceptedExactly`, `SignedAttrs.HugeContentRejected`).
- `capString` repairs nothing: on bytes that are not valid UTF-8 the result is valid only under the condition of
  `CapString.CappedIsValidExactly`, which fails for a stray lead byte (`CapString.InvalidStaysInvalid`).
- `versionLess` is a strict total order on a set of versions exactly when no two of them are tied (the same segments, as
  in "1" and "1.", or a first difference between numerals of the same number modulo 2^64, such as a leading zero) and no
  three of them first differ at two numerals and a segment between them that is no numeral, which can make it cyclic
  (`Versions.VersionsAreOrderedExactly`, `Versions.MixedSegmentsCycle`). On canonical versions it is the numeric order
  exactly as far as the first numbers that differ survive wrapping at 2^63 (`Versions.CanonicalOrderExactly`,
  `Versions.LargeSegmentsWrap`).
- Two flushes of the indexer can overlap; if they finish in the wrong order, an older document can replace a newer one
  for good (`Indexer.DrainedIndexIsRightExactly`, `Indexer.OutOfOrderIsRightExactly`, `Indexer.OverlapCanGoStale`).

## Model

| member | source | states |
|---|---|---|
| ChainHash.WriteReadAgreement | backend/internal/audit/audit.go:191-255 | For every entry, either version and every nanosecond clock value, a reader feeds the hash exactly the bytes the writer fed it, as written out field by field, if and only if the address text survives the database; the stored hash is then recomputed |
| ChainHash.RowIsWrittenOut | backend/internal/audit/audit.go:240-255 | The bytes a reader hashes for a row of either version, written out |
| ChainHash.CompatibleAddressIsUnstable | backend/internal/audit/audit.go:357-362 | An address for which it does not: an IPv4-compatible IPv6 address that the database reads back in dotted form |
| ChainHash.StoredFields | backend/internal/audit/audit.go:227-254 | Field by field, what a reader hashes of a row stored by either version is what was written, NULLs and microseconds included, but for the address |
| ChainHash.MaterialInjective | backend/internal/audit/audit.go:241-255 | Two delimited rows of either version over one predecessor hash the same bytes if and only if they say the same thing, NULL and empty identified |
| ChainHash.VersionsDisjoint | backend/internal/audit/audit.go:240-253 | A v1 row and a v2 row never hash the same bytes |
| ChainHash.BarMakesItAmbiguous | backend/internal/audit/audit.go:197-202 | Without the condition on bars the canonical form is ambiguous: a bar can move between two fields |
| ChainSpec.VerdictMeaning | backend/internal/audit/ops.go:102-129 | FirstBadID is 0 exactly on an intact table and otherwise the smallest mismatching id; LastGoodID is the row before it; Total counts each row; the two hashes are the expected and the stored one of that row |
| ChainSpec.FoldIsVerdict | backend/internal/audit/ops.go:77-115 | One in-order fold over the loop variables computes that verdict, whether or not the stored hash is carried past the first mismatch |
| ChainSpec.ScanConcat | backend/internal/audit/ops.go:58-119 | Folding page after page is folding once over all rows |
| ChainSpec.FirstBadOfSuffix | backend/internal/audit/ops.go:192-197 | Starting behind an intact prefix with its last stored hash finds the first mismatch of the whole table |
| ChainSpec.NextRowExtends | backend/internal/audit/audit.go:158-255 | A row that a writer of either version appends, to a table of rows of both, keeps the links, and keeps the chain intact when its address survives |
| AuditService.ScanPage | backend/internal/audit/ops.go:77-111 | The row loop is the fold over one page, in both verifiers |
| AuditService.ScanPages | backend/internal/audit/ops.go:58-119 | For every table and every positive page size the page loop reads each row above its start once, terminates, and succeeds exactly when the queries it needs all succeed |
| AuditService.ReadPage | backend/internal/audit/ops.go:64-119 | One page query and its rows: a short page ends the scan with the fold over all rows, a full page leads on right behind it |
| AuditService.NextPage | backend/internal/audit/ops.go:64-72 | A short page ends the scan; a full page continues it right behind its last row |
| AuditService.Service.Record | backend/internal/audit/audit.go:121-221 | Appends exactly the row chained to the newest one, with the caller's columns ("user" only for an empty actor type, NULL only for an empty user agent) and the clock cut to the microsecond, or leaves the table as it was, wherever its statements break off; keeps links and intactness |
| AuditService.Service.VerifyDeep | backend/internal/audit/ops.go:47-130 | Returns the verdict on the whole table and notes a break, once |
| AuditService.Service.VerifyIncremental | backend/internal/audit/ops.go:159-302 | Returns the verdict on the rows after the checkpoint, moves the checkpoint by the conditional update unless the database refuses it, falls back to a full scan only when there is no checkpoint |
| AuditService.ScanTail | backend/internal/audit/audit.go:325-352 | The row loop returns the first mismatch, or 0 |
| AuditService.Service.VerifyTail | backend/internal/audit/audit.go:294-353 | Returns the first mismatch among the rows it gets to see of the last n, anchored on the stored chain_prev; a full scan when there are fewer or the lookup fails; with a linked anchor and nothing cut off, 0 if and only if the last n rows (256 when asked for none) are good, and a given id if and only if it is their first bad one |
| VerifierAgreement.IncrementalAgreesWithDeep | backend/internal/audit/ops.go:159-272 | From a checkpoint that names a row and its hash behind an intact prefix, the incremental report is the full report but for the row count, also on tables broken later |
| VerifierAgreement.IncrementalAgreesExactly | backend/internal/audit/ops.go:159-272 | The two name the same first mismatch if and only if nothing up to the checkpoint is broken |
| VerifierAgreement.IntactAdvances | backend/internal/audit/ops.go:285-300 | On an intact table the checkpoint moves to the last row and the counter grows by the rows in between |
| VerifierAgreement.BrokenHolds | backend/internal/audit/ops.go:266-279 | On a table broken behind the checkpoint the checkpoint does not move |
| ChainSpec.TailVerdict | backend/internal/audit/audit.go:307-352 | With a linked anchor, the tail answer is 0 if and only if the tail is good, and a given id if and only if that is its smallest mismatch |
| VerifierAgreement.TailAgreesWithDeep | backend/internal/audit/audit.go:288-293 | With a linked anchor, the tail answer is that of `VerifyDeep` if and only if nothing before the anchor is broken |
| VerifierAgreement.ForgedAnchorIsReported | backend/internal/audit/audit.go:307-311 | Rewriting the anchor of an otherwise good row gets that row reported, or exhibits a collision |
| VerifierAgreement.CutOffVerdict | backend/internal/audit/audit.go:325-352 | When the result set breaks off, which nothing checks, the tail answer is the right one if and only if the first mismatch was among the rows seen, or there is none |
| PurgedReaders.DeepAfterPurge | backend/internal/audit/ops.go:47-119 | Whatever is deleted from an intact table, `VerifyDeep` answers 0 if no retained row lies above a deleted one and otherwise names the first that does, unless a named pair of byte strings collides or the first row's bytes begin with a named stored hash |
| PurgedReaders.IncrementalAfterPurge | backend/internal/audit/ops.go:192-272 | The same for `VerifyIncremental` and the rows above its checkpoint, whose own row may be deleted |
| PurgedReaders.TailAfterPurge | backend/internal/audit/audit.go:302-352 | The same for `VerifyTail` and the rows from its anchor on; with too few rows left, for the whole table |
| PurgedReaders.NoGapExactly | backend/internal/audit/archive.go:342-346 | No retained row lies above a deleted one if and only if the retained rows are the lowest |
| PurgedReaders.RepeatedHash | backend/internal/audit/audit.go:191-204 | Two equal stored hashes in a chain lead back to a collision or to the first row |
| PurgedReaders.DeepReportsPurge | backend/internal/audit/ops.go:47-119 | With one run's id range deleted, `VerifyDeep` answers 0 if and only if nothing is retained above a deleted row, and otherwise names the first row behind the range, up to the same deception |
| PurgedReaders.IncrementalSurvivesPurge | backend/internal/audit/ops.go:209-217 | The purge leaves the rows `VerifyIncremental` reads unchanged if and only if it deletes none above the checkpoint |
| PurgedReaders.TailSurvivesPurge | backend/internal/audit/audit.go:302-352 | `VerifyTail` answers 0 if and only if it looks at no more rows than are retained above the range, or nothing is retained above a deleted row; otherwise, fallback included, it names the first row behind the range |
| PurgedReaders.DeepOnReachableTables | backend/internal/audit/archive.go:307-361 | In every state any run of sweeps and purges reaches over an intact history, the answer of `VerifyDeep` in those terms (histories with rows recorded after a purge: ChainedArchive) |
| ChainedArchive.StepKeepsHistory | backend/internal/audit/audit.go:158-220 | With records, sweeps and purges interleaved, every row stays what `Record` stored on top of a row such that everything in between has been purged |
| ChainedArchive.FitsExactly | backend/internal/audit/audit.go:191-255 | Over a predecessor with the stored hash it was recorded with, a reader hashes the recorded bytes if and only if the address survives the database; with an address that survives, if and only if the predecessor has that stored hash |
| ChainedArchive.MisfitExactly | backend/internal/audit/archive.go:342-352 | A retained row that was not recorded on top of a row purged since is read with the recorded bytes if and only if its address survives; any other row whose address survives, if and only if the row now before it has the purged one's stored hash |
| ChainedArchive.DeepInEveryRun | backend/internal/audit/ops.go:47-119 | In every such run, whatever was recorded, `VerifyDeep` answers 0 if every retained row is read with the recorded bytes, and otherwise names the first that is not, unless those bytes collide; a chain that starts anew on an emptied table is accepted |
| ChainedArchive.DeepNamesOrphans | backend/internal/audit/ops.go:47-119 | While the recorded addresses survive, the row it names was recorded on top of a row that has been purged since, and it answers 0 when there is none |
| ChainedArchive.IncrementalAnswer | backend/internal/audit/ops.go:192-272 | The same for `VerifyIncremental` from any checkpoint that names a row of the history, retained or not |
| ChainedArchive.IncrementalInEveryRun | backend/internal/audit/ops.go:192-272 | From a checkpoint at or above everything purged, while the addresses above it survive, it answers 0, except that it can name the next row if that was recorded after the checkpoint's own row had been purged |
| ChainedArchive.TailInEveryRun | backend/internal/audit/audit.go:302-352 | The same for `VerifyTail` from the predecessor its anchor row was recorded with, fallback included |
| TamperEvidence.EqualOrCollision | backend/internal/audit/ops.go:102-114 | Two equally long tables that `VerifyDeep` accepts and that end in the same hash cover the same bytes row by row, or a named pair of byte strings collides |
| TamperEvidence.HeadCommitsToHistory | backend/internal/audit/ops.go:102-114 | With delimited fields the head hash commits to the content and stored hash of every row, up to that collision |
| RecordProtocol.StepKeepsInv | backend/internal/audit/audit.go:133-220 | No statement of any transaction breaks the serial form of the table, and every commit is an append |
| RecordProtocol.OthersOk | backend/internal/audit/audit.go:139-156 | What one transaction has read or inserted stays current while others move, because the lock is held to the end |
| RecordProtocol.SerialIsChain | backend/internal/audit/audit.go:158-220 | A serial table is one unforked chain, and a row whose address does not survive passes only on a collision |
| RecordProtocol.PassesExactly | backend/internal/audit/audit.go:191-217 | A recorded row passes verification if and only if its address survives the database, or a named collision hides that it does not |
| RecordProtocol.EveryInterleavingIsOneChain | backend/internal/audit/audit.go:133-255 | In every interleaving of any number of transactions of either version, rollbacks included, whatever was recorded: the committed rows at every moment are one unforked chain, the one that the commits in order write, and `VerifyDeep` answers 0 if and only if every row whose address does not survive owes it to a collision |
| RecordProtocol.CommittedRows | backend/internal/audit/audit.go:122-124 | Every committed row of every run carries its caller's columns and the clock its Record read, to the microsecond |
| RecordProtocol.UninterruptedRecord | backend/internal/audit/audit.go:133-220 | A transaction that nothing interrupts appends the next row and leaves the lock free |
| RecordProtocol.BrokenOffRecord | backend/internal/audit/audit.go:133-156 | A transaction that breaks off leaves no row, and no lock |
| RecordProtocol.EveryInterleavingIsIntact | backend/internal/audit/audit.go:133-220 | While every recorded address survives the database, `VerifyDeep` accepts the chain in every interleaving |
| CheckpointProtocol.StepKeepsInv | backend/internal/audit/ops.go:47-302 | No step of overlapping full and incremental calls and of transactions, whatever rows fail verification, moves the checkpoint back or breaks what it and the calls stand for |
| CheckpointProtocol.FinishKeepsCheckpoint | backend/internal/audit/ops.go:266-300 | The conditional update does nothing or adds exactly the rows between the old and the new checkpoint, all of them good; after a mismatch it does nothing |
| CheckpointProtocol.FinishAdvances | backend/internal/audit/ops.go:285-300 | A call that found nothing wrong, whose checkpoint nobody has moved and whose UPDATE is accepted, moves the checkpoint to the last row it read and adds the rows in between; any other call leaves it where it is |
| CheckpointProtocol.UninterruptedCall | backend/internal/audit/ops.go:47-302 | A call of the protocol that nothing interrupts has the outcome and the checkpoint of the method |
| CheckpointProtocol.PageKeepsCall | backend/internal/audit/ops.go:58-119 | A page read while rows are appended continues the fold over consecutive rows; a short one reaches the end of the table as it is then |
| CheckpointProtocol.ScannedReport | backend/internal/audit/ops.go:192-262 | In either mode, what a call has found so far is what a full scan of the rows it has reached finds |
| CheckpointProtocol.RunKeepsInv | backend/internal/audit/ops.go:285-300 | Over every append-only run with overlapping calls the checkpoint only moves forward |
| CheckpointProtocol.CheckpointsAreSound | backend/internal/audit/ops.go:47-302 | In every such run, whatever rows fail verification: the checkpoint names a row and its stored hash or is the seed, every row up to it is good, and each was counted once; every finished call, full or incremental, reported what a full scan of the table as of its last page reports |
| CheckpointProtocol.AlarmsAreTrue | backend/internal/audit/ops.go:102-108 | In every such run an alarm names the smallest mismatching row of the table |
| CheckpointProtocol.NoAlarms | backend/internal/audit/ops.go:102-108 | While every recorded address survives the database, no call ever reports a mismatch |
| Archive.StepKeepsInv | backend/internal/audit/archive.go:109-197 | Every statement of the archiver and every append keeps: the table is the history minus purged ranges, ranges are disjoint and increasing, every run's object holds its rows |
| Archive.RunKeepsInv | backend/internal/audit/archive.go:100-361 | The same over every run, wherever sweeps and purges break off |
| Archive.WindowIsExact | backend/internal/audit/archive.go:111-127 | The window's count is the number of rows in its id range that are older than the cutoff |
| Archive.NothingPurgedBeyond | backend/internal/audit/archive.go:243-249 | Serialising a window reads every row of the history in it, whatever has been purged |
| Archive.PurgedTableIsKept | backend/internal/audit/archive.go:342-352 | Deleting a run's range and marking it leaves exactly the rows that no purged run covers |
| Archive.DueRowsExactly | backend/internal/audit/archive.go:111-121 | A sweep counts exactly the rows older than the cutoff with ids above 0 and above every archived range |
| Archive.ListedExactly | backend/internal/audit/archive.go:310-327 | One purge lists the first 16 runs that are old enough and unpurged, or as many as its result set delivers |
| Archive.PurgesFindCompleteRanges | backend/internal/audit/archive.go:342-346 | In every run each purge transaction finds every row of its range still there, so the check its comment promises would never hold it back |
| Archive.EveryRowIsKeptOrArchived | backend/internal/audit/archive.go:307-361 | A row is gone from the table if and only if a purged run covers it; then that run's object carries its line, and no other run covers it |
| Archive.CoveredRowIsArchived | backend/internal/audit/archive.go:243-290 | A row is in a run's object if and only if the run's range covers it |
| Archive.RowCountIsExact | backend/internal/audit/archive.go:118-127 | row_count equals the serialised lines if and only if every row in the range was older than the cutoff |
| Archive.MiscountIsReached | backend/internal/audit/archive.go:118-127 | Three rows of which only the middle one is not yet due always give a run whose row_count falls short of its lines |
| Archive.SweepTakesAllDue | backend/internal/audit/archive.go:111-127 | No row older than the cutoff and above the archived ids is left out of a sweep |
| Archive.SweepIsTight | backend/internal/audit/archive.go:111-127 | A sweep leaves no row behind below its window if and only if the lowest unarchived row is due |
| Archive.SkippedForGood | backend/internal/audit/archive.go:112-121 | Over every run, a row that a sweep passed over is never archived nor purged at any later time |
| Archive.SkipIsReached | backend/internal/audit/archive.go:112-121 | Two rows of which only the second is due always give a run that skips the first |
| Archive.InnerPurgeIsReached | backend/internal/audit/archive.go:342-346 | A due row between two that are not yet due always gives a run that deletes it from between them |
| Archive.OrderedRunsSkipNothing | backend/internal/audit/archive.go:109-135 | If occurred_at never decreases with id, over every run nothing up to the highest archived id is skipped and row_count equals the serialised lines |
| Archive.LineDeterminesHashExactly | backend/internal/audit/archive.go:268-285 | Delimited rows with the same archived line hash the same bytes if and only if they agree on actor id, user agent and hash version |
| Archive.ArchiveDropsHashedColumns | backend/internal/audit/archive.go:268-285 | An instance: rows that differ in the user agent leave the same line and hash differently |
| ArchivedChain.LineReadsBack | backend/internal/audit/archive.go:271-285 | A line and the three columns it leaves out give the row back |
| ArchivedChain.LineHasRowBytes | backend/internal/audit/archive.go:271-285 | The bytes written out from a line, over its own chain_prev, are those its row's hash covers |
| ArchivedChain.ObjectVerifies | backend/internal/audit/archive.go:172-173 | In every run over an intact, linked history each line of a recorded object, with the three columns, has the chain_hash of its own bytes, and the chain_prev that is the chain_hash of the line before it |
| Archiver.Sweeper.Serialise | backend/internal/audit/archive.go:243-290 | The lines are those of the rows in the range, in id order |
| Archiver.Sweeper.RunOnce | backend/internal/audit/archive.go:100-204 | One sweep: the object and the run row it writes, what is left wherever it stops, and the purge that may follow |
| Archiver.Sweeper.PurgeOldArchives | backend/internal/audit/archive.go:307-361 | The purge transactions of up to 16 listed runs, up to the first that fails |
| Archiver.PurgeReaches | backend/internal/audit/archive.go:329-357 | A purge marks exactly the runs it gets to |
| Archiver.SweepIsFourSteps | backend/internal/audit/archive.go:109-197 | A sweep that succeeds is the protocol's four statements in a row |
| Archiver.BrokenSweepIsSteps | backend/internal/audit/archive.go:131-197 | A sweep that breaks off leaves the object, or what is left of it, no run, and the archiver free |
| Archiver.AfterPurgesIsPurgeFirst | backend/internal/audit/archive.go:329-359 | A purge is the protocol's purge steps in a row |
| Archiver.PurgeLoopKeepsInv | backend/internal/audit/archive.go:329-359 | A purge keeps the protocol's invariant wherever it stops |
| Indexer.Queue.Requeue | backend/internal/analytics/indexer.go:258-279 | Puts a failed batch back at the head, or drops it when the queue would exceed the cap |
| Indexer.Queue.Flush | backend/internal/analytics/indexer.go:247-282 | What a flush sends, and what the queue holds after success and failure |
| Indexer.Queue.Handle | backend/internal/analytics/indexer.go:83-115 | Enqueues, and flushes exactly when the batch size is reached |
| Indexer.StepConserves | backend/internal/analytics/indexer.go:235-280 | Every step keeps each enqueued document in exactly one of delivered, queued, in flight or dropped |
| Indexer.UninterruptedFlush | backend/internal/analytics/indexer.go:247-282 | A flush of the protocol that nothing interrupts empties the queue or puts it back, as the method does |
| Indexer.RunsConserve | backend/internal/analytics/indexer.go:235-280 | The same over every interleaving, overlapping flushes included, and no re-enqueue leaves the queue above 50000 |
| Indexer.ReplayAbsorbs | backend/internal/analytics/indexer.go:258-279 | Sending a batch again after any subset of it was applied gives what sending it once gives |
| Indexer.LastWriteWins | backend/internal/analytics/indexer.go:247-258 | At every index and id the search index holds the last document written there |
| Indexer.OthersAreKept | backend/internal/analytics/indexer.go:247-258 | Elsewhere it keeps what was there |
| Indexer.OneIsChosen | backend/internal/analytics/indexer.go:258-265 | Of a batch of one, a failed request applied that one or nothing |
| Indexer.AnyPartIsChosen | backend/internal/analytics/indexer.go:258-265 | A failed request can have applied any part of its batch |
| Indexer.BatchesCommuteExactly | backend/internal/analytics/indexer.go:247-282 | Two batches can be delivered in either order if and only if they leave the same document at every id they share |
| Indexer.StepCatchesUp | backend/internal/analytics/indexer.go:235-282 | While batches in flight together agree in that sense and nothing is dropped, index plus outstanding work is always the fold of everything enqueued |
| Indexer.DrainedIndexIsComplete | backend/internal/analytics/indexer.go:235-282 | Then, once nothing is outstanding, the index is the in-order fold of all enqueued documents; flushes that do not overlap, or only on disjoint ids, are instances |
| Indexer.OutOfOrderIsRightExactly | backend/internal/analytics/indexer.go:247-253 | Two overlapping flushes that finish in the wrong order leave the right index if and only if their batches agree |
| Indexer.DrainedIndexIsDelivered | backend/internal/analytics/indexer.go:247-282 | In every run that drops nothing, any overlaps and partial failures included: once nothing is outstanding, the index is the result of the delivered batches in the order of delivery |
| Indexer.DrainedIndexIsRightExactly | backend/internal/analytics/indexer.go:247-282 | So it is the right index if and only if that order leaves at every id the document enqueued for it last |
| Indexer.OverlapCanGoStale | backend/internal/analytics/indexer.go:247-253 | With two overlapping flushes the older of two writes can stay in the index |
| CertCache.CertVerifier.CachePut | backend/internal/agentgw/mtls.go:281-296 | Inserts, dropping at most one other entry and only from a full cache; the bound is kept |
| CertCache.CertVerifier.VerifyPeerCertificate | backend/internal/agentgw/mtls.go:204-269 | The decision on every path, what it caches, and that rejections cache nothing |
| CertCache.AcceptedExactly | backend/internal/agentgw/mtls.go:226-257 | The database path accepts exactly a known, unrevoked, unexpired certificate of an agent neither revoked nor quarantined; which reason is given when |
| CertCache.StepKeepsInv | backend/internal/agentgw/mtls.go:204-296 | Every step of concurrent handshakes keeps the cache bounded and backed by what the database said |
| CertCache.UninterruptedHandshake | backend/internal/agentgw/mtls.go:226-269 | A handshake of the protocol that nothing interrupts has the verdict and the cache of the method |
| CertCache.HandshakesAreSound | backend/internal/agentgw/mtls.go:204-296 | In every interleaving an accepted handshake was vouched for by the database within the TTL (plus lag); a rejected one is rejected by the database at that moment, or its query failed |
| CertCache.InstantWriteRespectsExpiry | backend/internal/agentgw/mtls.go:217-232 | With query and cache write as one instant, nothing is accepted past the expiry read within the last 30 seconds |
| CertCache.RevocationTakesEffect | backend/internal/agentgw/mtls.go:217-232 | A certificate the database stops vouching for is turned away from TTL plus lag on |
| CertCache.VouchedIsNotTurned | backend/internal/agentgw/mtls.go:226-257 | No handshake is turned away whose query was answered while the database vouched for its unexpired certificate |
| CertStore.Store.Save | agent/internal/certstore/certstore.go:53-76 | The directory after every way a Save can end, that it succeeds only when complete, and that it refuses exactly the bundles that are not sound, touching nothing |
| CertStore.ValidExactly | agent/internal/certstore/certstore.go:128-159 | A bundle passes if and only if nothing is empty, certificate and key parse, and the fingerprint is that of the certificate's bytes |
| CertStore.Store.Load | agent/internal/certstore/certstore.go:88-124 | What Load makes of every directory: whatever it returns is such a bundle, and every such bundle or triple that can be read is returned |
| CertStore.ReadErrorsOnlyFail | agent/internal/certstore/certstore.go:88-118 | Read errors never change which bundle is loaded, only whether one is; a bundle that cannot be read is not replaced by the three files |
| CertStore.SavesAreAtomic | agent/internal/certstore/certstore.go:53-76 | After any sequence of interrupted Saves the bundle file is that of the last rename, and with no rename nothing but the staged file changed |
| CertStore.CrashConsistency | agent/internal/certstore/certstore.go:53-124 | Load then returns the last renamed bundle if and only if that bundle survives marshalling; with no rename it returns what it did before |
| CertStore.MirrorsLoad | agent/internal/certstore/certstore.go:69-75 | The mirror files of a complete Save load as its bundle when the bundle file is lost |
| CertStore.MirrorContents | agent/internal/certstore/certstore.go:69-75 | What each mirror file holds after a Save |
| CertStore.StagedFileIsIgnored | agent/internal/certstore/certstore.go:88-124 | Load never looks at the staged file |
| CertStore.KeyIsNotMatched | agent/internal/certstore/certstore.go:128-159 | In a valid bundle the key can be replaced by exactly the texts that parse as a private key, whichever certificate they belong to |
| CertStore.ReplacedKeyIsLoaded | agent/internal/certstore/certstore.go:53-124 | A completed Save of such a bundle is what Load returns if and only if the key parses and the bundle survives marshalling |
| BruteforceShield.Shield.RecordFailure | backend/internal/auth/bruteforce.go:42-75 | Which of its three statements run and what they leave, when it trips, and when it reports an error; a nil address does nothing |
| BruteforceShield.Shield.SweepExpired | backend/internal/auth/bruteforce.go:117-130 | Removes expired locks and failures older than twice the window, counts them, and may stop after either statement |
| BruteforceShield.SinceLeaves | backend/internal/auth/bruteforce.go:124-126 | What is left is the failures from the bound on, all of them, in order |
| BruteforceShield.SweepIsAlike | backend/internal/auth/bruteforce.go:117-130 | Either statement of a sweep leaves a state that no later statement can tell from the old one |
| BruteforceShield.CallKeepsAlike | backend/internal/auth/bruteforce.go:42-112 | Indistinguishable states answer every statement alike and stay indistinguishable |
| BruteforceShield.SweepingIsUnobservable | backend/internal/auth/bruteforce.go:42-130 | For every interleaving of the statements of all calls under a monotone clock, leaving out all sweeps changes no other answer, provided each count runs within one window of the clock reading it uses |
| BruteforceShield.LateCountNoticesSweep | backend/internal/auth/bruteforce.go:53-57 | Any later count does notice a sweep |
| BruteforceShield.CountIsHistory | backend/internal/auth/bruteforce.go:53-58 | With sweeps in between, the failures counted in the window are those of the whole history |
| BruteforceShield.TripsOnThreshold | backend/internal/auth/bruteforce.go:42-62 | However its statements interleave with others, sweeps included: a RecordFailure goes on to the lock if and only if the history at its count holds the threshold number within the window |
| BruteforceShield.UninterruptedTrips | backend/internal/auth/bruteforce.go:42-75 | Run without interruption it locks if and only if the history with this failure does |
| BruteforceShield.LockHolds | backend/internal/auth/bruteforce.go:60-74 | Once the lock is raised the address stays locked for at least LockFor unless it is unlocked, whatever else runs |
| SignedAttrs.CanonicalSignedAttrs | backend/internal/audit/timestamp_cms.go:242-277 | Returns a fresh re-tagged copy or the input itself, or the error, as specified |
| SignedAttrs.HeaderReadsBack | backend/internal/audit/timestamp_cms.go:255-271 | A DER header of up to four length octets reads back the length it was written for |
| SignedAttrs.RetagsEncoding | backend/internal/audit/timestamp_cms.go:242-277 | For every content below 2^32 octets the encoding under 0xA0 becomes the encoding of the same content under 0x31, and again changes nothing |
| SignedAttrs.AcceptedExactly | backend/internal/audit/timestamp_cms.go:242-277 | Exactly which inputs are accepted, and that only the first octet changes |
| SignedAttrs.BadLengthsRejected | backend/internal/audit/timestamp_cms.go:255-271 | Indefinite, over-long and truncated length fields are rejected, each if and only if, with its own error |
| SignedAttrs.HugeContentRejected | backend/internal/audit/timestamp_cms.go:258-262 | Encodings of 2^32 octets or more are rejected |
| SignedAttrs.RetaggingIsInjective | backend/internal/audit/timestamp_cms.go:272-277 | Different attributes stay different, and the header still reads the same |
| CapString.Cap | backend/internal/api/handlers.go:104-120 | The walk back computes the specified prefix |
| CapString.CappedIsLongestPrefix | backend/internal/api/handlers.go:104-120 | On valid UTF-8 the result is the longest valid prefix within the budget, at most three bytes short of it |
| CapString.BoundaryIsRuneStart | backend/internal/api/handlers.go:111-119 | In valid text a cut is valid if and only if a sequence starts there |
| CapString.EncodedIsValid | backend/internal/api/handlers.go:111-119 | Every sequence of Unicode scalar values encodes to text that counts as valid (section 3 of RFC 3629) |
| CapString.ValidIsEncoded | backend/internal/api/handlers.go:111-119 | And only such text counts as valid |
| CapString.CappedIsValidExactly | backend/internal/api/handlers.go:104-120 | On any bytes, the result is valid if and only if no sequence starts after the valid prefix within the budget |
| CapString.InvalidStaysInvalid | backend/internal/api/handlers.go:111-119 | An input on which it is not |
| Versions.SplitVersion | backend/internal/agents/ops.go:360-375 | The loop computes the segments between dots |
| Versions.SplitExactly | backend/internal/agents/ops.go:360-375 | The segments followed by dots are the version again, and contain no dots |
| Versions.SplitRender | backend/internal/agents/ops.go:360-375 | Splitting undoes joining numerals with dots |
| Versions.ParseInt | backend/internal/agents/ops.go:377-389 | Succeeds exactly on non-empty digits; the value with 64-bit wrap-around |
| Versions.ParsedWraps | backend/internal/agents/ops.go:377-389 | The parsed value is the decimal value modulo 2^64, signed |
| Versions.VersionLess | backend/internal/agents/ops.go:344-358 | The loop computes the recursive order on segments |
| Versions.FirstDifferenceDecides | backend/internal/agents/ops.go:344-357 | Two versions are decided by their first different segments, as numbers if both are numerals and otherwise as strings |
| Versions.FewerSegmentsFirst | backend/internal/agents/ops.go:357-357 | Without a difference the one with fewer segments comes first |
| Versions.StringLessExactly | backend/internal/agents/ops.go:355-355 | A string comes before another if it is a proper prefix of it or has the lower character at their first difference |
| Versions.VersionOrderIsLexicographic | backend/internal/agents/ops.go:344-358 | On canonical versions that fit 64 bits it is the lexicographic order on the numbers |
| Versions.VersionOrderIsTotal | backend/internal/agents/ops.go:341-358 | On those it is a strict total order |
| Versions.UnorderedExactly | backend/internal/agents/ops.go:344-358 | Two versions are unordered if and only if they have the same segments or first differ in numerals that denote the same number modulo 2^64 |
| Versions.OrderChains | backend/internal/agents/ops.go:344-358 | On all versions the order is irreflexive, and transitive but where three versions first differ at two numerals and a segment that lies between them as a string the other way round |
| Versions.VersionsAreOrderedExactly | backend/internal/agents/ops.go:341-358 | Any set of versions is strictly totally ordered if and only if no two of them are tied in that sense and no three first differ in that way |
| Versions.NumericOrderIsStrict | backend/internal/agents/ops.go:344-358 | On numeric versions of any size the order is irreflexive and transitive |
| Versions.NumericVersionsAreOrderedExactly | backend/internal/agents/ops.go:341-358 | For numeric versions of any size: if and only if no two of them are tied |
| Versions.CanonicalOrderExactly | backend/internal/agents/ops.go:344-389 | On canonical versions of any size the order is the lexicographic one if and only if the first numbers that differ compare alike modulo 2^64, signed |
| Versions.LargeSegmentsWrap | backend/internal/agents/ops.go:377-389 | A numeral from 2^63 to 2^64 compares below every smaller one that fits |
| Versions.MixedSegmentsCycle | backend/internal/agents/ops.go:354-355 | With a segment that is not a number the order is cyclic |
| Versions.Offers.OfferUpdate | backend/internal/agents/ops.go:279-315 | Offers the first bundle that applies among those its query delivers, nothing if and only if none does, and records that offer unless the database refuses |
| Versions.WithheldExactly | backend/internal/agents/ops.go:298-303 | A bundle is withheld only from an agent already on its version, or one below its minimum when both versions are given |
| Versions.GateIsNumeric | backend/internal/agents/ops.go:298-303 | Between canonical versions a bundle applies if and only if the agent is on a different version numerically at or above the minimum |

## Left out

- SQL text, connection pools, HTTP, JSON, gzip, hex and NDJSON rendering: statements are atomic steps, encodings are
  parameters or left as values.
- SHA-256, RSA, X.509, PEM and ASN.1 parsing: parameters of which nothing is assumed.
- Time formatting: `ChainHash.TimeFormatInjective` assumes that no two instants render alike and that none renders with
  a bar; only the injectivity results use it.
- `net.IP` values that are non-nil but empty, or that do not print as an address.
- Log lines, metrics, the detail text of a verification result, handshake logging, and the e-mail column of failures.
- Rows that cannot be decoded, except in the paged verifiers, where they count as a failed query.
- A purge in the middle of a verification; appends in the middle of one are modelled.
- The time-stamping authority, `AnchorOnce`, and the columns of an archive run that describe its object.
- `computeCutoff`, `Policies`, `PolicyFor`, `ShipBatch`, `Timeline` and the CEF line: lookups and formatting.
- More than one archiver at a time: leader election keeps it to one.
- OpenSearch: a bulk request applies some subset of its operations and reports success or failure as a whole; a
  success that hides failed items counts as delivered, as it does in the client.
- The event subscription and the row lookups before `enqueue`.
- Issuer pool refresh, TLS configuration and the identity middleware of the gateway.
- Clock skew between application and database: each model has one monotone clock. The time between a handshake's query
  and its cache write is a parameter `lag`; a cache hit's lookup and its expiry check share one instant.
- Durability after a power loss (fsync), file modes, and concurrent Saves, which share one staged file.
- `LoadFingerprint`: returns a field of what `Load` returns.
- Password breach lookups and the shield's number formatting.
- CMS parsing, the message digest attribute and signature verification.
- Decoding of malformed UTF-8 in version strings: a version is a sequence of characters.
- The order of `OfferUpdate`'s rows and the manifest it returns: rows arrive as the query yields them. Nothing is
  claimed about agents converging on the newest bundle.
- Job polling and deferral.
