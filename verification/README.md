# A verified model of the amarillo indexer and alert dispatcher

amarillo follows an Ethereum chain, stores blocks, events and the call traces of failed
transactions in PostgreSQL, explains why a transaction reverted, and posts webhook alerts.
This project models its stateful and algorithmic core in Dafny and proves what that core
keeps over every input and every run. `dafny verify dfyconfig.toml` checks all of it.

| file | what it models |
|---|---|
| `ForkScan.dfy` | `classify_fork`, `next_scan_depth`, the lazy widening `detect_fork` |
| `Tables.dfy` | the tables, their foreign keys, `rollback_from_block`, `recent_block_hashes` |
| `ReorgRepair.dfy` | repeated detect-then-rollback cycles, reorgs deeper than the scan cap included |
| `FollowDecisions.dfy`, `RangeIndexing.dfy` | range decisions, `process_chunk`, `index_range`, catching up |
| `ConfirmedFollow.dfy` | the follow loop against a chain that reorganises between any two steps |
| `Convergence.dfy` | the whole loop, scan to indexing, over a chain that has come to rest |
| `FollowRuns.dfy` | what runs of that machine keep when confirmed blocks do change |
| `BlockContent.dfy` | the rows of one block, and the statements that the decoder or the schema fails |
| `CrashRecovery.dfy` | fixed-range runs killed at any INSERT and restarted |
| `AlertLedger.dfy`, `AlertOutbox.dfy` | the delivery ledger and every interleaving of dispatch tasks on it |
| `RateDebounce.dfy` | rate alerts: check, then record, without a claim |
| `DispatchBatch.dfy` | the bounded task pool of one dispatch cycle |
| `CallTrace.dfy`, `TraceJson.dfy`, `RootCause.dfy` | trace parsing, flattening, the root-cause readers |
| `RevertReason.dfy`, `Classifier.dfy` | revert decoding and classification |
| `Signature.dfy` | parameter-list extraction and top-level splitting |
| `Redaction.dfy` | URL redaction of stored errors |
| `LabelPivot.dfy` | the by-label pivot, its order and its cut |
| `Options.dfy`, `Rounds.dfy` | shared vocabulary |

Protocols are state machines: a `Step` datatype, an `Enabled` predicate, an `Apply` function
and a `Run` over a list of steps; a theorem about `Run` is a statement about every
interleaving of any length. Every SQL statement is one atomic step. Code that updates state
in place is a class or a method with a loop, proved against a specification function; the
lemmas are about that function.

## Hypotheses

- Outbox: a task that still acts does so within 60 seconds of its claim (`Timely`). A task
  that hangs longer counts as crashed. `SafeIffTimely` shows that this is exactly what the
  guarantees need: `record_alert_delivery` overwrites whatever status it finds.
- Reorg repair: the chain stands still and the node answers for every stored height. Which
  rows are left is stated with hash linkage and, as an equivalence, without.
- Convergence: in addition, the stored rows are gap-free and hashed, every agreeing row names the
  row below it as its parent, equal hashes mean equal parents, and genesis is unchanged.
- Confirmed follow: blocks at or below (highest head read - confirmations) never change.
- Crash recovery: the node answers for every height of the range, the same way every time it is
  asked; a transaction hash belongs to one block, and events and traces to its transactions; the
  input and output of a frame are hex text. Of a failed row the category column is modelled.
- Rate alerts: each dispatcher runs its cycles one after the other, and the debounce of a
  subscription does not change.

## Where the code and its comments or design differ

- The comment at `crates/db/src/queries.rs:642-648` calls the first error frame the place
  where the revert happened first. In pre-order it is the outermost erroring frame
  (`RootCauseIsOutermost`). It is the first to revert if and only if no frame below it has an
  error (`RootCauseIsFirstIff`), which a revert that bubbles up never meets
  (`BubbledRevertIsMisplaced`).
- The comment at `crates/db/src/queries.rs:1177-1179` allows an overlap of one or two rate
  dispatches. The bound is the number of dispatchers, and it is reached
  (`AtMostOnePerDispatcher`, `BoundIsReached`).
- `rollback_from_block` overwrites the checkpoint. It moves forward when the fork lies more
  than one above the checkpoint (`CheckpointMovesBackExactlyWhen`), which a chunk that failed
  half-way makes possible (`FailedChunkThenReorg`, `FailedChunkLeavesGap`). The heights in
  between are then not indexed as long as the chain only grows (`RestartInChunkLeavesGap`).
- A rollback at height 0 leaves a checkpoint that claims block 0
  (`RollbackKeepsExactRowsIff`).
- A reorg between two inserts of one chunk leaves a stale row that no scan looks at as long as
  the chain only grows (`ReorgInChunkIsNeverSeen`).
- Traces are inserted without a conflict rule, so a restarted job can store a trace any number
  of times (`TraceStoredAnyNumberOfTimes`); its listing is then flagged too early and no longer
  rebuilds (`DiagnosisAfterRestarts`).
- `cap_range_to` lets one range through that is longer than its cap (`CapHoldsIff`).
- `64 + len` in `decode_abi_string` leaves the integer range, and the decoder panics, for
  exactly the outputs described by `OverflowExactlyWhen`. The schema refuses amounts from 10^38
  on, empty tick ranges and zero characters. Either fails the block's chunk on every restart, so
  the indexer never gets past such a block (`FinishableIff`, `OneBlockedHeight` and the
  witnesses in `BlockContent`).
- `classify_error` has nine names and UNKNOWN, the stored value five and UNKNOWN: the other four
  are stored as UNKNOWN (`crates/indexer/src/worker.rs:587-594`, `StoredCategory`).
- The listing offers, and the claim refuses, a claim whose age is the stale limit to the
  microsecond (`ListingAgreesWithClaim`).

## Model

| member | source | states |
|---|---|---|
| `AlertOutbox.ExactlyOnceDelivery` | crates/db/src/queries.rs:1463-1489 | over every disciplined interleaving of tasks, crashes, clock ticks and re-indexing: one live holder per (subscription, tx), acknowledged POSTs at most 1 plus the tasks lost between acknowledgement and record, `attempts` = claims + records, `delivered_at` set exactly when delivered |
| `AlertOutbox.DeliveredIsFinal` | crates/db/src/queries.rs:1057-1085 | from any point of a disciplined run on, a delivered row is never changed, claimed again or acknowledged again |
| `AlertOutbox.SafeIffTimely` | crates/indexer/src/alerts.rs:238-338 | when the clock moves on from a world that satisfies the invariant, every continuation keeps the bound on acknowledgements if and only if no live task is overdue, and keeps every delivered row if and only if none is |
| `AlertOutbox.ListedPairIsNotHeld` | crates/db/src/queries.rs:1019-1050 | in every reachable world a listed pair is held by no live task, except by one whose claim is exactly at the stale boundary |
| `AlertOutbox.StepKeepsInv` | crates/indexer/src/alerts.rs:238-338 | every enabled, timely step keeps ownership, acknowledgement accounting, attempt accounting and delivery times |
| `AlertOutbox.LateTaskRepeatsDelivery` | crates/indexer/src/alerts.rs:238-338 | from every such world with an overdue task, whatever its phase, a continuation gives the pair a second acknowledgement with no task lost |
| `AlertOutbox.LateRecordOverwritesDelivered` | crates/db/src/queries.rs:1070-1076 | from every such world a continuation makes the overdue task overwrite a delivered row; a late failure turns it into a failed row that keeps its delivery time |
| `AlertOutbox.OverdueIsReachable` | crates/indexer/src/alerts.rs:238-338 | one claim and one minute and a microsecond lead to such a world |
| `AlertLedger.AlertDeliveryTable.TryClaim` | crates/db/src/queries.rs:1463-1489 | wins exactly for a new, failed or stale-claimed pair; the whole claimed row, and every other row untouched |
| `AlertLedger.AlertDeliveryTable.RecordDelivery` | crates/db/src/queries.rs:1057-1085 | the upsert, column by column: status, attempts + 1, error, claim time kept, delivery time kept on failure; other rows untouched |
| `AlertLedger.AlertDeliveryTable.DispatchItem` | crates/indexer/src/alerts.rs:238-338 | each outcome if and only if its case: skipped without a claim, unsafe for a refused URL, failed for a corrupt secret or a failed POST, delivered otherwise; posted exactly when both guards pass; the whole row it leaves, with a redacted error text |
| `AlertLedger.ListingAgreesWithClaim` | crates/db/src/queries.rs:1019-1050 | for every ledger and clock, claimable matches are listed, delivered ones are not, and listed but unclaimable means claimed exactly at the boundary |
| `AlertLedger.ListedExactlyWhen` | crates/db/src/queries.rs:1019-1050 | a pair is listed if and only if its subscription is active and per-event, category and recipient fit where they are named, and no delivery of it is done or was claimed within the window |
| `DispatchBatch.DispatchOnce` | crates/indexer/src/alerts.rs:347-397 | for every batch and completion order: each item started once in order, at most 10 in flight, each counter grows by the tasks with its outcome, errors and panics counting as failed, attempted = delivered + failed + unsafe + skipped |
| `DispatchBatch.BucketsPartition` | crates/indexer/src/alerts.rs:347-397 | the four outcome buckets partition the batch |
| `RateDebounce.AtMostOnePerDispatcher` | crates/db/src/queries.rs:1181-1239 | with N dispatchers no half-open window of one debounce holds more than N records of a subscription, in any run |
| `RateDebounce.SingleDispatcherSpacing` | crates/indexer/src/alerts.rs:405-524 | one dispatcher keeps records of a subscription at least the debounce apart |
| `RateDebounce.BoundIsReached` | crates/db/src/queries.rs:1181-1239 | for every N there is a run with N records in one instant |
| `RateDebounce.ListedHasReachedThreshold` | crates/db/src/queries.rs:1181-1209 | in every run, what a cycle lists is an active rate subscription with at least its threshold of failed transactions of its category and recipient within its window at that instant, and no record within its debounce |
| `RateDebounce.EndedCycleCanListAgain` | crates/indexer/src/alerts.rs:541-544 | a dispatcher that ended its cycle can list again |
| `RateDebounce.ThresholdCanBeListed` | crates/db/src/queries.rs:1181-1209 | conversely, any such set of transactions of a quiet subscription makes it listable |
| `ForkScan.ClassifyFork` | crates/indexer/src/worker.rs:793-826 | the loop over stored rows returns the verdict defined by where the run of mismatches from the tip ends |
| `ForkScan.NextScanDepth` | crates/indexer/src/worker.rs:832-837 | strictly widens below the maximum, by the factor 4 where that fits, and never passes it |
| `ForkScan.FetchUpTo` | crates/indexer/src/worker.rs:265-285 | completes exactly when all needed hashes are answered, asks for no height twice and stops at the first missing one |
| `ForkScan.DetectFork` | crates/indexer/src/worker.rs:256-305 | the widening loop terminates, never reaches its safety net, and its result and number of lookups are `Detect` and `Lookups` |
| `ForkScan.ScanEqualsFullClassification` | crates/indexer/src/worker.rs:256-305 | with all hashes available the widening scan answers what one full-depth classification answers |
| `ForkScan.ForkReportedExactlyWhen` | crates/indexer/src/worker.rs:793-826 | a fork is reported at the k-th row if and only if the k newest rows mismatch, the next agrees or is absent, and the window was answered |
| `ForkScan.MissingHashMeansNoFork` | crates/indexer/src/worker.rs:265-304 | once a needed hash is missing no fork is reported |
| `ForkScan.LookupCost` | crates/indexer/src/worker.rs:265-304 | 1 lookup when the tip agrees, at most min(len, 4k) when the nearest row that does not mismatch is k rows down |
| `Tables.Database.RollbackFromBlock` | crates/db/src/queries.rs:854-918 | the new state of all tables, checkpoint and alert ledger, and the number of deleted blocks |
| `Tables.StatementsInOrder` | crates/db/src/queries.rs:857-914 | what the store looks like after each of the eight statements |
| `Tables.RollbackKeepsForeignKeys` | crates/db/src/queries.rs:857-914 | referential integrity holds after every single statement |
| `Tables.OrderIsNecessary` | crates/db/src/queries.rs:846-902 | deleting the transactions first keeps the foreign keys if and only if no doomed transaction has a dependent row in any table; deleting the blocks first, if and only if no transaction is doomed |
| `Tables.RollbackTransaction` | crates/db/src/queries.rs:854-918 | the statements one after the other are the one-shot rollback |
| `Tables.RollbackRows` | crates/db/src/queries.rs:854-918 | exactly the rows at or above the fork go, in every table; the others, their contents and the ledger stay, and each surviving transaction keeps its trace rows, their number and order |
| `Tables.RollbacksCompose` | crates/db/src/queries.rs:854-918 | two rollbacks leave the rows of one at the smaller height, with the checkpoint of the later |
| `Tables.RollbackIsIdempotent` | crates/db/src/queries.rs:846-918 | rolling back twice at one height is rolling back once |
| `Tables.CheckpointMovesBackExactlyWhen` | crates/db/src/queries.rs:855-914 | the checkpoint does not move forward if and only if the fork is at most checkpoint + 1 |
| `Tables.Database.InsertBlock` | crates/db/src/queries.rs:52-79 | a stored height keeps its row, a new one gets it; everything else unchanged |
| `Tables.Database.UpdateCheckpoint` | crates/db/src/queries.rs:790-808 | only the checkpoint changes |
| `Tables.NewestFirstIsSorted` | crates/db/src/queries.rs:833-846 | the listing is strictly descending and shows the stored hashes |
| `Tables.NewestFirstHasAll` | crates/db/src/queries.rs:833-846 | every hashed height is in the listing |
| `ReorgRepair.RepairCycle` | crates/indexer/src/worker.rs:134-152 | one cycle rolls back the mismatched rows that the capped scan sees, or does nothing |
| `ReorgRepair.RepairLoop` | crates/indexer/src/worker.rs:134-152 | repeated cycles stop after ceil(k / 4096) rollbacks in the store that one rollback at the true fork leaves, whatever the depth k |
| `ReorgRepair.CycleVerdict` | crates/indexer/src/worker.rs:256-305 | what one capped scan reports about the whole table |
| `ReorgRepair.RollbackDropsNewest` | crates/db/src/queries.rs:833-918 | rolling back to the j-th newest hashed row drops exactly the j newest from the listing |
| `ReorgRepair.RepairKeepsUpToHighestAgreement` | crates/indexer/src/worker.rs:134-152 | a row survives if and only if it or a newer row agrees with the chain |
| `ReorgRepair.RepairIsExactIffLinked` | crates/indexer/src/worker.rs:134-152 | the hashed rows left are exactly the agreeing ones if and only if agreement goes down |
| `ReorgRepair.AgreeingTipHidesStaleRow` | crates/indexer/src/worker.rs:793-826 | an agreeing tip ends the scan after one lookup, whatever lies below |
| `FollowDecisions.CycleRange` | crates/indexer/src/worker.rs:721-753 | a range exists exactly when the checkpoint is below the confirmed tip; it starts after the checkpoint, stays confirmed and holds min(lag, cap) heights |
| `FollowDecisions.CapCutsTail` | crates/indexer/src/worker.rs:721-731 | the cap keeps the start, cuts only the tail and only to exactly `cap` heights; cap 0 cuts nothing |
| `FollowDecisions.CapHoldsIff` | crates/indexer/src/worker.rs:721-731 | a positive cap bounds the range if and only if the true width fits 64 bits or the cap is not the largest |
| `FollowDecisions.ResumeIsExact` | crates/indexer/src/main.rs:134-151 | a restarted run gets exactly the heights of its range that the checkpoint does not cover, and ends at once exactly when there are none |
| `FollowDecisions.ResumeWithoutEnd` | crates/indexer/src/main.rs:147-151 | without an end the run is the one first height that the checkpoint does not cover |
| `FollowDecisions.NegativeCheckpointIsZero` | crates/indexer/src/worker.rs:743-746 | a negative checkpoint counts as zero |
| `FollowDecisions.FirstRangeIsTip` | crates/indexer/src/worker.rs:738-753 | without a checkpoint only the confirmed tip is indexed |
| `RangeIndexing.ProcessChunk` | crates/indexer/src/worker.rs:309-334 | in any completion order: success exactly when no task of the chunk fails, then all heights stored once; on failure a subset that includes what unfinished tasks had stored |
| `RangeIndexing.IndexRange` | crates/indexer/src/worker.rs:55-88 | rows, checkpoint and processed heights after completion, cancellation at the first chunk boundary where the flag is set, or failure |
| `RangeIndexing.FollowCycle` | crates/indexer/src/worker.rs:164-180 | uninterrupted, one cycle indexes exactly the next min(lag, 500) confirmed heights; cancelled, it keeps the rows exactly start..checkpoint at an earlier checkpoint; with a failing task it leaves part of its range above the checkpoint |
| `RangeIndexing.CatchUp` | crates/indexer/src/worker.rs:134-182 | with a fixed head: ceil(lag / 500) cycles, rows exactly start..(head - confirmations), every height once |
| `Rounds.RoundsForIsCeiling` | crates/indexer/src/worker.rs:721-733 | the number of rounds is the quotient rounded up |
| `RangeIndexing.CompletedChunksKeepExactRows` | crates/indexer/src/worker.rs:66-84 | completed chunks after the checkpoint keep the rows exactly start..checkpoint |
| `RangeIndexing.RollbackKeepsExactRowsIff` | crates/db/src/queries.rs:855-914 | with any rows of a failed chunk above the checkpoint, a rollback to a stored height leaves the rows exactly start..checkpoint if and only if the height is not 0 and no height between checkpoint and fork is missing |
| `RangeIndexing.RollbackResumesAtFork` | crates/indexer/src/worker.rs:738-753 | after a rollback to a positive height the loop resumes at exactly that height |
| `Convergence.FollowUntilIdle` | crates/indexer/src/worker.rs:134-182 | from gap-free rows whose k newest are stale the loop is idle after ceil(k / 4096) rollbacks and ceil(lag / 500) cycles, with gap-free rows up to the confirmed tip that all agree with the chain |
| `Convergence.LinkageBringsAgreementDown` | crates/indexer/src/worker.rs:808-813 | if every agreeing row names the row below it as its parent, gap-free rows agree with a linked chain at every height below one where they agree |
| `Convergence.RepairIsExactIffParentsMatch` | crates/indexer/src/worker.rs:134-152 | the repair leaves exactly the agreeing rows if and only if every agreeing row names the row stored below it as its parent |
| `Convergence.ScanStep` | crates/indexer/src/worker.rs:134-152 | an iteration rolls back exactly while stale rows are left, as many as the capped scan sees, and otherwise changes nothing |
| `Convergence.FailedChunkThenReorg` | crates/db/src/queries.rs:855-914 | when a failed chunk left rows above the checkpoint and a reorg replaced them, the repair drops exactly those rows, and the result is gap-free if and only if the chunk had stored its first height |
| `Convergence.FailedChunkLeavesGap` | crates/db/src/queries.rs:907-914 | a concrete store: the scan reports 150, the rollback rewinds the checkpoint from 100 to 149, and the loop resumes at 150 |
| `Convergence.RepairedIsExact` | crates/db/src/queries.rs:855-914 | repairing k stale rows lowers the checkpoint by k and leaves the rows exactly start..checkpoint |
| `Convergence.RepairedAgrees` | crates/indexer/src/worker.rs:134-152 | every row the repair leaves is the chain's |
| `Convergence.NewestFirstOfRange` | crates/db/src/queries.rs:833-846 | the listing of gap-free rows counts down from the newest, one height at a time |
| `ConfirmedFollow.ConfirmedRowsNeverRollBack` | crates/indexer/src/worker.rs:134-182 | in every reachable state of a run from agreeing rows every stored hash is the chain's and no rollback has fired |
| `ConfirmedFollow.AgreeingTipFindsNoFork` | crates/indexer/src/worker.rs:256-305 | whatever answers a scan collects, it reports no fork unless the answer for the newest row contradicts it |
| `FollowRuns.RowsStayGapFree` | crates/indexer/src/worker.rs:94-182 | in every run, whatever reorgs happen above genesis and whenever, the rows are exactly start..checkpoint plus what the current chunk has stored, as long as the process ends only where a chunk ends, by a cancellation inside a range or otherwise |
| `FollowRuns.HiddenRowsStay` | crates/indexer/src/worker.rs:793-826 | below a stored row that agrees no row is ever corrected: while the chain only grows, no scan, cycle or restart rolls back or changes a row |
| `FollowRuns.ConfirmedRunsMissNothing` | crates/indexer/src/worker.rs:134-182 | while confirmed blocks stay, restarts anywhere included, every height from the start to the checkpoint is stored in every reachable state |
| `FollowRuns.UnansweredScanDoesNothing` | crates/indexer/src/worker.rs:279-291 | a lookup that fails leaves no answer, and a scan without one for the newest row changes nothing |
| `FollowRuns.ReorgInChunkIsNeverSeen` | crates/indexer/src/worker.rs:309-334 | a concrete run: a reorg between two inserts of one chunk leaves a stale row under an agreeing one, and every continuation over a growing chain keeps it; only the parent column shows it |
| `FollowRuns.GapsStay` | crates/indexer/src/worker.rs:738-753 | a height at or below the checkpoint that is not stored is never indexed while the chain only grows and some stored row agrees with it |
| `FollowRuns.RestartInChunkLeavesGap` | crates/db/src/queries.rs:855-914 | a concrete run: a restart inside a chunk, a reorg of the one block it had stored and the rollback leave a height below the checkpoint unstored, and every continuation over a growing chain keeps it so |
| `CrashRecovery.RecoveryRefinesCleanRun` | crates/indexer/src/main.rs:134-165 | every finished history, killed anywhere, has a kill-free counterpart with the same blocks, transactions, events, failures, checkpoint and ledger, whose traces stand exactly once |
| `CrashRecovery.RestartsDoNotShow` | crates/indexer/src/worker.rs:372-480 | any two finished histories leave the same store but for `trace_log` |
| `CrashRecovery.FinishableIff` | crates/indexer/src/main.rs:134-165 | a history, killed or running, can be continued to a finished one if and only if no height that its checkpoint leaves outstanding has a blocked statement: revert data that panics the decoder, or a row that the schema refuses |
| `CrashRecovery.BlockedHeightStopsCheckpoint` | crates/indexer/src/worker.rs:372-480 | otherwise, however often the run is restarted, the checkpoint never reaches such a height, its traces are never stored if the blocked statement is theirs or earlier, and the job is never finished |
| `CrashRecovery.CanFinish` | crates/indexer/src/main.rs:134-165 | without a blocked statement ahead, the continuation needs no further interruption |
| `CrashRecovery.OneBlockedHeight` | crates/indexer/src/worker.rs:329-331 | over a chain that is otherwise empty, one height with a blocked statement makes every job that has to do it unfinishable |
| `BlockContent.TransferStopsIff` | migrations/20240101000001_initial_schema.sql:153-170 | a transfer stops its block if and only if its amount is 10^38 or more |
| `BlockContent.LiquidityStopsIff` | migrations/20240101000001_initial_schema.sql:130-151 | a liquidity event stops its block if and only if an amount or its liquidity is 10^38 or more or its tick range is empty |
| `BlockContent.SwapStopsIff` | migrations/20240101000001_initial_schema.sql:106-128 | a swap stops its block if and only if an amount in either direction or its liquidity is 10^38 or more |
| `BlockContent.SwapDirection` | crates/decoder/src/events.rs:217-222 | the paid-in and paid-out amounts of a swap are positive and account for the two signed amounts |
| `BlockContent.TransactionStopsIff` | migrations/20240101000001_initial_schema.sql:71-88 | a transaction stops its block if and only if its gas is negative as a signed number, its gas price 10^30 or its value 10^38 |
| `BlockContent.BlockGasStopsIff` | migrations/20240101000001_initial_schema.sql:51-58 | a block is stopped by its own row if and only if its gas is negative as a signed number |
| `BlockContent.FrameStopsIff` | migrations/20240101000001_initial_schema.sql:172-233 | a frame stops its block at the trace row if and only if its output panics the decoder, its value is 10^38, its type or an address is too long or a text has a zero character; at the failed row, if and only if its gas is negative as a signed number or its reason has a zero character |
| `BlockContent.ZeroByteStops` | crates/indexer/src/worker.rs:567-585 | a revert message with a zero byte stops its block at the failed rows, after its traces were stored |
| `BlockContent.PanicStops` | crates/decoder/src/trace.rs:216-219 | 68 bytes of revert data stop a block before its traces |
| `CrashRecovery.FinishedTablesHold` | crates/indexer/src/worker.rs:372-480 | every table holds, with their modelled columns, the rows of every height of the range, unless it started with others under the same key; a failed row has the category that the stored enum knows |
| `CrashRecovery.FinishedFailedRow` | crates/indexer/src/worker.rs:567-594 | for a call tree of any size the failed row has the stored category of the output of its root call |
| `BlockContent.FailedRowOfTree` | crates/indexer/src/worker.rs:567-594 | the frame a failed row is made from is the root of the call tree |
| `BlockContent.CategoryColumnOfText` | crates/indexer/src/worker.rs:567-594 | the category column of an ASCII message is its classification, as far as the stored value knows it |
| `CrashRecovery.FinishedTraces` | crates/db/src/queries.rs:435-469 | each transaction has its old trace rows and then its trace, whole, once plus at most once per interruption |
| `CrashRecovery.CopiesAre` | crates/db/src/queries.rs:435-469 | in every history the trace of a height is stored exactly once for every run that ended between its trace insert and the checkpoint of its chunk, and once more when the insert is done |
| `CrashRecovery.TraceStoredAnyNumberOfTimes` | crates/db/src/queries.rs:451-454 | for every k a finished history with k kills leaves the trace of the first height stored k + 1 times |
| `CrashRecovery.DiagnosisAfterRestarts` | crates/api/src/routes/failed_tx.rs:36-58 | with that number c of copies, the listing is flagged exactly when c times the calls exceed 2000, reading gives the tree c times, and the rows rebuild it exactly when no run ended there |
| `CrashRecovery.RestartsKeepRootCause` | crates/db/src/queries.rs:649-665 | the diagnosed first error frame is the one that a single trace after the old rows gives |
| `CrashRecovery.InsertFits` | crates/db/src/queries.rs:52-79 | an ON CONFLICT DO NOTHING insert keeps a table within what start and chain supply and completes one height |
| `CrashRecovery.FitsDetermines` | crates/db/src/queries.rs:52-79 | a table with every height done is determined by its start and the chain |
| `CallTrace.FrameBuffer.Flatten` | crates/decoder/src/trace.rs:175-202 | the recursive walk appends the pre-order list of the converted tree |
| `CallTrace.FlatteningIsInvertible` | crates/decoder/src/trace.rs:175-202 | rebuilding from the (depth, frame) rows returns the original tree |
| `CallTrace.FlatteningIsInjective` | crates/decoder/src/trace.rs:175-202 | equal rows mean equal trees |
| `CallTrace.TraceShape` | crates/decoder/src/trace.rs:61-73 | one row per call, depth 0 first, each later depth between 1 and the previous plus 1 |
| `TraceJson.ParseTrace` | crates/decoder/src/trace.rs:61-73 | fails exactly without a textual root type, else gives the pre-order rows of the parsed tree |
| `TraceJson.MalformedCallsVanish` | crates/decoder/src/trace.rs:104-172 | a nested call that does not parse leaves no trace among its siblings |
| `TraceJson.ParseInvertsRender` | crates/decoder/src/trace.rs:104-172 | parsing inverts rendering, for trees with lower-case addresses and 64-bit gas |
| `TraceJson.ParseLowersAddresses` | crates/decoder/src/trace.rs:104-172 | for any tree with 64-bit gas, parsing what was sent gives the tree with its addresses in lower case |
| `TraceJson.MissingMembers` | crates/decoder/src/trace.rs:104-172 | a frame with only a type gets the zero address as sender, gas 0 and nothing else |
| `TraceJson.NumbersAreReadOrZero` | crates/decoder/src/trace.rs:127-134 | a hex number is read with or without prefix; one that is too large, or a text that is no number, reads as zero |
| `TraceJson.RadixReadsExactly` | crates/decoder/src/trace.rs:127-134 | a text is read if and only if it has a digit, only digits after an optional plus, and a value below the limit |
| `TraceJson.HexIgnoresCase` | crates/decoder/src/trace.rs:127-134 | capital digits count the same |
| `TraceJson.SignedCast` | crates/decoder/src/trace.rs:193-193 | the signed gas column keeps the number modulo 2^64 |
| `TraceJson.TraceSurvivesStorage` | crates/decoder/src/trace.rs:61-73 | the rows of `parse_trace` give back exactly the tree that was sent, for lower-case addresses, 64-bit gas and a value of at most 128 bits in every frame |
| `TraceJson.RestoredInvertsFlat` | crates/decoder/src/trace.rs:175-198 | the column conversion of such a frame can be undone |
| `TraceJson.AbsentValueReadsAsZero` | crates/decoder/src/trace.rs:176-185 | an absent value and a value of zero give the same row |
| `RootCause.DiagnoseTrace` | crates/api/src/routes/failed_tx.rs:36-58 | cut and flag exactly beyond 2000 rows, the first error row of all rows, the input of the first shown row at depth 0 |
| `RootCause.RootCauseIsOutermost` | crates/db/src/queries.rs:649-665 | the chosen frame has an error and none of its ancestors has |
| `RootCause.RootCauseIsFirstIff` | crates/db/src/queries.rs:642-665 | the chosen frame is the first one to finish with an error if and only if no frame below it has an error; a frame is chosen exactly when one has |
| `RootCause.BubbledRevertIsMisplaced` | crates/db/src/queries.rs:642-665 | a two-frame trace in which the inner call reverts first and the root frame is chosen |
| `RootCause.CutIsClosedUnderParents` | crates/db/src/queries.rs:623-640 | the bounded call tree has every ancestor of every frame it shows |
| `RootCause.CutShowsRootCauseOrNoError` | crates/api/src/routes/failed_tx.rs:36-58 | the bounded call tree shows the root cause unless nothing in it has an error |
| `RootCause.DiagnosisOfCopies` | crates/api/src/routes/failed_tx.rs:36-58 | with c copies of a trace stored, the flag is set exactly when c times its calls exceed 2000, reading gives the tree c times, and it rebuilds exactly for c = 1 |
| `RevertReason.ErrorRoundTrip` | crates/decoder/src/trace.rs:79-99 | a canonically encoded `Error(string)` below the overflow bound decodes to exactly its bytes |
| `RevertReason.AbiStringRoundTrip` | crates/decoder/src/trace.rs:205-227 | so does any payload of that length, whatever the offset word and the tail |
| `RevertReason.OverflowExactlyWhen` | crates/decoder/src/trace.rs:212-219 | `64 + len` overflows if and only if the low length word ends in seven 0xff and a byte of at least 0xc0 |
| `RevertReason.PanicsExactlyWhen` | crates/indexer/src/worker.rs:567-585 | processing a root output panics if and only if it is hex of such bytes |
| `RevertReason.ShortestPanicPanics` | crates/decoder/src/trace.rs:212-219 | a concrete 68-byte output on which it panics, and that the next smaller length does not |
| `RevertReason.OtherOutputsAreUnknown` | crates/decoder/src/trace.rs:79-99 | any other or missing selector decodes to a text that is classified UNKNOWN |
| `RevertReason.OtherOutputsAreDumped` | crates/decoder/src/trace.rs:79-99 | revert data that is neither an error nor a whole panic is shown as hex of its own bytes |
| `RevertReason.PanicCodeIsShown` | crates/decoder/src/trace.rs:93-96 | a panic shows the last byte of its word as two hex digits |
| `RevertReason.ErrorIsWholeIff` | crates/decoder/src/trace.rs:205-227 | an error string is decoded if and only if its two words and its whole text are there |
| `RevertReason.UndecodableIsUnknown` | crates/indexer/src/worker.rs:567-585 | no output, no hex, or an error that does not decode is UNKNOWN, unless it panics |
| `RevertReason.HexRoundTrip` | crates/decoder/src/trace.rs:230-232 | decoding the hex dump gives the bytes back |
| `RevertReason.CategoryOfError` | crates/indexer/src/worker.rs:567-585 | from root-frame hex to category: a reverted message is classified by its own text |
| `RevertReason.StfIsStored` | crates/decoder/src/classifier.rs:33-39 | an encoded `Error("STF")` is stored as INSUFFICIENT_BALANCE |
| `RevertReason.AllowanceIsLost` | crates/indexer/src/worker.rs:587-594 | any encoded message that contains "allowance" is classified INSUFFICIENT_ALLOWANCE and stored as UNKNOWN |
| `RevertReason.FiveNamesSurvive` | crates/indexer/src/worker.rs:587-594 | exactly five names and UNKNOWN are stored as they are, every other name as UNKNOWN |
| `RevertReason.CategoryOfOtherData` | crates/indexer/src/worker.rs:567-585 | from root-frame hex to category: all other revert data is UNKNOWN |
| `Classifier.DumpsAreUnknown` | crates/decoder/src/classifier.rs:15-95 | no hex dump or panic code matches any substring rule |
| `Classifier.FirstRules` | crates/decoder/src/classifier.rs:18-39 | INSUFFICIENT_ALLOWANCE and INSUFFICIENT_BALANCE, each if and only if its needles occur and no earlier rule applies |
| `Classifier.SlippageRules` | crates/decoder/src/classifier.rs:25-57 | the four slippage categories, each if and only if its needles occur and no earlier rule applies |
| `Classifier.LastRules` | crates/decoder/src/classifier.rs:59-95 | DEADLINE_EXPIRED, UNAUTHORIZED and TRANSFER_FAILED likewise, and UNKNOWN if and only if no needle occurs |
| `Signature.SplitTopLevel` | crates/decoder/src/abi.rs:169-189 | the loop returns the trimmed pieces between top-level commas, none for the empty text |
| `Signature.ParameterTypes` | crates/decoder/src/abi.rs:153-189 | printing any type list as `name(...)`, extracting and splitting returns the printed types in order |
| `Signature.SplitInvertsPrint` | crates/decoder/src/abi.rs:169-189 | the pieces of a printed type list are the printed types, nested tuples included |
| `Signature.SplitIgnoresBlanks` | crates/decoder/src/abi.rs:169-189 | any blanks around the types of a list make no difference to the pieces |
| `Signature.JoinInvertsSplit` | crates/decoder/src/abi.rs:169-189 | joining the pieces of any blank-free text, balanced or not, gives the text |
| `Signature.ParamListOf` | crates/decoder/src/abi.rs:153-163 | whatever stands between the outer parentheses comes back |
| `Signature.ParamListExistsIff` | crates/decoder/src/abi.rs:153-163 | a list is found if and only if some '(' precedes some ')' |
| `Redaction.RedactUrls` | crates/indexer/src/alerts.rs:111-139 | the loop terminates and computes the character-wise redaction |
| `Redaction.StoredError` | crates/indexer/src/alerts.rs:320-320 | at most 500 characters, a prefix of the redaction, no `http://` or `https://` |
| `Redaction.StoredErrorHasNoUrl` | crates/indexer/src/alerts.rs:111-139 | no prefix of the output contains a scheme |
| `Redaction.UnchangedIffNoUrl` | crates/indexer/src/alerts.rs:111-139 | exactly the scheme-free texts are left as they are |
| `Redaction.RedactingTwiceIsOnce` | crates/indexer/src/alerts.rs:111-139 | redaction is idempotent |
| `Redaction.RedactionIsWordwise` | crates/indexer/src/alerts.rs:104-110 | the two sides of a whitespace are redacted independently |
| `Redaction.WordIsCutAtScheme` | crates/indexer/src/alerts.rs:104-139 | a word keeps exactly what precedes its first scheme, then the mark |
| `Redaction.UrlTextDoesNotLeak` | crates/indexer/src/alerts.rs:104-139 | the text between a scheme and the next whitespace has no influence on the output |
| `LabelPivot.GroupRows` | crates/db/src/queries.rs:1368-1375 | the loop over rows fills the group map row by row |
| `LabelPivot.BalancedIffUniqueRows` | crates/db/src/queries.rs:1368-1375 | every point's categories add up to its total if and only if no (label, address, category) repeats |
| `LabelPivot.CellsComeFromRows` | crates/db/src/queries.rs:1368-1375 | a category cell exists exactly if a row has it, and holds a row's count |
| `LabelPivot.GroupIsCount` | crates/db/src/queries.rs:1368-1375 | a group exists exactly if a row has its label and address, and its total is the sum of their counts |
| `LabelPivot.PointsConserveTotal` | crates/db/src/queries.rs:1377-1385 | in whatever order the map is walked, the totals of all points add up to the counts of all rows |
| `LabelPivot.FailedTxByLabel` | crates/db/src/queries.rs:1368-1397 | totals never increase, ties are in the order of label and then address, every point shows the counts of its rows, at most `limit` points for a positive limit, and no label that was cut off has failed more often than a listed one |
| `LabelPivot.ReportIsUnique` | crates/db/src/queries.rs:1387-1397 | rows and limit determine the response: points and order do not depend on the map walk |

## Left out

- RPC providers, retry and back-off, WebSocket ticks, HTTP POST, HMAC, DNS: foreign calls, modelled as arbitrary answers and outcomes.
- Alloy ABI decoding, BigDecimal, JSON text parsing, URL parsing: libraries; JSON is an abstract tree with the members the parser asks for.
- SQL views, procedures and triggers: the tables are modelled without them. Of the schema, column widths, CHECK constraints and foreign keys are modelled; the timestamp range, the size limits of a statement and the silent cut of trailing blanks in VARCHAR columns are not.
- `dispatch_rate_once`: its pool loop is that of `dispatch_once`; only its protocol is modelled.
- ORDER BY and LIMIT of the two pending listings: the listings are sets, so nothing is claimed about which matches come first.
- RevertReason.CategoryOfError: lossy UTF-8 conversion and Unicode lower-casing are modelled on single bytes and ASCII letters.
- The wire-name tables of the enums: finite tables.
- Decimal printing of a frame's value, i32 depth and i64 count overflow, and u64 overflow of chunk arithmetic: the model's numbers are unbounded there; heights in range decisions saturate as in the source.
- ReorgRepair.RepairLoop: a scan with a missing answer is covered by MissingHashMeansNoFork; the loop itself assumes that stored heights are answered.
- ConfirmedFollow.ConfirmedRowsNeverRollBack: follows block rows and checkpoint; the dependent tables are in CrashRecovery and Tables.
- RangeIndexing.ProcessChunk: follows block rows only; the seven inserts of one block are in CrashRecovery.
- Block rows with the same hash at different gas or timestamp columns: columns that the code only copies are one string or absent.
- Subscription hard delete, which erases ledger rows, and subscription secret rotation.
- `price_snapshot`, `user_profile`, tokens, pools, time series, pagination, authentication, URL safety checks, the web dashboard, configuration and scripts.
