# Verified model of the block indexer

A Dafny model of the parts of the indexer that carry real invariants, with proofs. Every statement
is about all inputs, all stored tables or all interleavings, unless it is a witness for something
the code does not guarantee.

Check everything with `dafny verify dfyconfig.toml`.

## What is modelled

**Paged lists** (`Lists`, `SortedIds`, `TableScan`, `Paging`, `CursorDao`, `Service`). Blocks, events and extrinsics live in
split tables of 1,000,000 blocks. The three cursor functions walk those tables, newest or oldest first,
and cut, reverse and flag what they fetched. `Paging` says what a page is on one sorted list, and what a
client sees who follows the cursors; `CursorDao` proves that the table-by-table loops return exactly those
pages - with missing tables, a fixed table, any filter, and with the account index that skips tables. The
source writes the loops out for each of the three kinds of rows; here `ScanDown`, `ScanUp`, `FetchNext`,
`FetchPrev` and `ListCursor` hold them once, with their differences as parameters. The one difference that
matters is kept: the first page of blocks stops at a missing table, every other loop passes over it. `Service`
turns the rows into what a client gets, with the first and the last id as cursors.

**The account index** (`CursorDao`, `IndexRace`, `IndexMigration`). Every insert runs a hook that lists the
row's table for its account; `IndexRace` is a state machine of block transactions whose hooks interleave;
the migration rebuilds the lists from the tables.

**Ids** (`CompositeId`, `IndexText`). Composite ids and receipt ids in 64-bit arithmetic, and their text.

**Ingestion** (`Ingest`, `BlockWriter`, `Completeness`). `Ingest` is a state machine: parser, publisher behind
a one-place channel, rate limiter, queue, and any number of workers, with the GET and the SET of each
watermark as two steps. What was received and published is part of its state, so that catching up can be
stated. `BlockWriter` is the transaction of one block with a failure possible at every
operation. `Completeness` is the scan that repairs gaps.

**The parallel runner** (`ParallelRunner`). Runner goroutine, pool of five, unbuffered error channel, wait
group and closer, one atomic action a step.

**Codecs and arithmetic** (`Radix`, `Base58`, `Hex`, `Ss58`, `Uint256`, `Abi`, `Fee`). Each codec is a
function with its inverse; where the source loops or writes into a buffer, a method with the same loop is
proved to compute that function. Base58 works on numerals in two bases (`Radix`).

**Small stores** (`RuntimeSpec`, `Erc721`). The runtime-version table with its early-exit scan, and the holder
table with its supply counter.

## What the code does not guarantee

For each of these the exact condition is proved for all inputs, and an input on the failing side is given:

- Going back to the page before cursor 0. A start cursor of 0 reads as "no cursor", so `before` gives the
  earlier page if and only if the cursor is above 0 or the page is the first (`Paging.PrevUndoesNext`,
  fails at `Paging.BeforeZeroIsLost`).
- The first page of blocks, and with it the walk through all blocks. It stops at a missing table, and is
  right if and only if it is full above that table or nothing lies below it (`CursorDao.FirstBlockPage`,
  `CursorDao.BlockWalkIsComplete`, fails at `CursorDao.GapHidesBlock`). With no table missing it is right.
- The migrated account index. The migration stops at the first missing table, so the index is sound if and
  only if every later row was already listed (`IndexMigration.MigratedIsSoundIff`, fails at
  `IndexMigration.GapHidesRow`).
- The parallel runner. It can finish if and only if fewer than five of the tasks before the last one fail;
  otherwise it blocks for ever (`ParallelRunner.FinishesIff`, `ParallelRunner.CloggedRunsGetStuck`). Its one
  caller has five tasks and is safe.
- Published blocks are stored once everything is quiet. A failed commit is printed and taken for a success,
  and a fill that panics (it does when the metadata of a new spec cannot be fetched) does not put its message
  back, so this holds in all runs if and only if neither can happen (`Ingest.QuietIsStoredIff`, fails at
  `Ingest.LostCommitLeavesHole` and `Ingest.PanicLeavesHole`).
- The account index lists every table of an account. The hook reads a list and later writes it back, so this
  holds in all runs if and only if no two transactions may hold the same account at once, or there is only
  one (`IndexRace.IndexStaysSoundIff`, fails at `IndexRace.LostEntry` and `IndexRace.LostUpdate`).
- Watermarks only grow. They are read and set in two steps, so this holds in all runs if and only if there
  is at most one worker (`Ingest.MarkNeverFallsIff`, fails at `Ingest.TwoWorkersMoveMarkBack`).
- No block is published twice. A last block of 0 reads as "nothing published", so this holds if and only if
  the session starts from a watermark above 0 (`Ingest.NoRepeatIff`, fails at `Ingest.ZeroWatermarkRepeats`).
- The counts of a block row. A second write never changes a row, so they stay right if and only if the block
  is not decoded into more items than before (`BlockWriter.CountsMatchIff`, fails at
  `BlockWriter.SecondDecodeBreaksCount`).
- The completeness scan. With fewer than 20 finalized blocks its target wraps around to beyond the chain
  (`Completeness.TargetWraps`), and it then panics at the first block that the node does not have. Every
  block from the start block on is looked at if and only if a start block above 0 is given
  (`Completeness.ChecksFromStartIff`); without one the scan begins at block 2.
- The spec of a block. The cached list may be older than the table, and a block below all of its rows is
  looked up in the first split table instead. So the answer is right if and only if the row of the spec was
  at or below the block at the last reload, or all rows were above it and the block is in the first table or
  has spec 0 (`RuntimeSpec.Runtimes.GetBlockRuntimeVersion`, `RuntimeSpec.AnswerIsRightIff`). It fails at
  `RuntimeSpec.StaleCacheMissesBlock`, for a block offered after the reload, and at
  `RuntimeSpec.ScanMissesBlock`, for a block below its row even with a fresh list. `RuntimeSpec.NewSpecIsMissed`
  says exactly when the first block of a new spec is answered wrong until the cache expires.
- The fee. It is within 1 of its exact value for all fees if and only if the weight is between 1 and
  2 * 10^16 (`Fee.WithinOneIff`), and never above the estimate if and only if the estimated weight is below
  2 * 10^16 (`Fee.NeverAboveIff`, fails at `Fee.BoundIsSharp`).
- SS58 addresses. Accepted ones with 5, 7, 8, 9 or 11 to 17 payload bytes are never written
  (`Ss58.EncodeUndoesDecode`, fails at `Ss58.LongChecksumIsRewritten`).

The comments at plugins/evm/dao/transaction.go:15-19 speak of limits 999_999 and 99_999, while the constants
are 100_000 and 10_000; the model uses the constants.

## Model

| member | source | states |
|---|---|---|
| `Paging.NextPageMeaning` | internal/dao/chainExtrinsic.go:74-94 | with `after`, whatever `before` is, the page is the `limit` largest ids below it in descending order, hasPrev is true, and hasNext is true exactly when the page leaves one out |
| `Paging.PrevPageMeaning` | internal/dao/chainExtrinsic.go:96-127 | with `before` alone the page is the `limit` smallest shown ids above it in descending order, hasNext is true, and hasPrev is true exactly when the page leaves one out |
| `Paging.FirstPageMeaning` | internal/dao/chainExtrinsic.go:129-147 | without a cursor the page is the `limit` largest shown ids, hasPrev is false, and hasNext is true exactly when it leaves one out |
| `Paging.CursorsMeaning` | internal/service/api.go:104-110 | the cursors are the largest and the smallest id of the page, there are none exactly for an empty page, and the two flags are handed on |
| `Paging.WalkFlags` | internal/service/api.go:98-110 | on page k of the walk hasPrev is true exactly when k > 0, hasNext exactly when a shown id lies below the end cursor, and both cursors are shown ids |
| `Paging.PageIsSlice` | internal/service/api.go:98-110 | the k-th page reached by end cursors is the k-th slice of the sorted list, with the right flags, and a page with hasNext never ends in cursor 0 |
| `Paging.WalkIsComplete` | internal/service/api.go:41-56 | following end cursors terminates, and the joined pages are all shown ids, each once, in strictly descending order |
| `Paging.PrevUndoesNext` | internal/dao/chainBlock.go:113-138 | `before` = the start cursor of the next page, as the service hands it out, gives the page back if and only if that cursor is above 0 or the page is the first; the flags are then right |
| `Paging.BeforeZeroIsLost` | internal/dao/chainBlock.go:113-138 | of the pages {2}, {1}, {0}, going back from the last gives the first instead of the middle one |
| `Service.Service.GetBlocksSampleCursor` | internal/service/api.go:41-56 | the stored blocks of the database page, in its order, with the cursors and flags of that page |
| `Service.Service.GetExtrinsicList` | internal/service/api.go:98-110 | for any filter, account, fixed table and cursors: the stored extrinsics of the database page, in its order, with its cursors and flags |
| `Service.Service.EventsList` | internal/service/api.go:120-154 | the same for events, each with its block if and only if that block is stored |
| `Service.BlocksReverseByNum` | internal/dao/chainBlock.go:223-245 | of the requested blocks exactly the stored ones, from all tables, each with its own row |
| `CursorDao.Dao.GetBlockListCursor` | internal/dao/chainBlock.go:84-158 | in all three modes the page of one query on the sorted list, except that a first page sees only the tables above the highest missing one |
| `CursorDao.Dao.GetEventListCursor` | internal/dao/chainEvent.go:19-102 | in all three modes, for any filter and fixed table, the page of one query on the sorted list of matching events |
| `CursorDao.Dao.GetExtrinsicListCursor` | internal/dao/chainExtrinsic.go:50-148 | the same for extrinsics, restricted to the tables listed for the account |
| `CursorDao.BlockViewHolds` | internal/dao/chainBlock.go:84-158 | next pages see every stored block, first and previous pages those of tables up to fillBest / 1,000,000, and a first page of these only those without a missing table above them |
| `CursorDao.EventViewHolds` | internal/dao/chainEvent.go:19-102 | next pages see every stored event that passes the filter, in the fixed table if any; the others those of tables up to fillBest / 1,000,000 |
| `CursorDao.ExtrinsicViewHolds` | internal/dao/chainExtrinsic.go:50-148 | the same for extrinsics, in the tables listed for the account if one is given |
| `CursorDao.ScanDown` | internal/dao/chainExtrinsic.go:130-141 | the downward loop collects the first `fetch` matching rows, newest first, of all tables it may visit |
| `CursorDao.ScanUp` | internal/dao/chainExtrinsic.go:101-116 | the upward loop collects the first `fetch` matching rows, oldest first, from the cursor's table to the last one |
| `CursorDao.ReverseList` | internal/dao/chainExtrinsic.go:121-124 | swapping from both ends reverses the list |
| `CursorDao.FirstBlockPage` | internal/dao/chainBlock.go:140-157 | with the shown blocks taken from the tables alone: the first page is the first page of all of them if and only if it is full above the missing table or nothing shown lies below it |
| `CursorDao.GapHidesBlock` | internal/dao/chainBlock.go:140-157 | a database with blocks in tables 0 and 2 whose first page shows only one of them |
| `CursorDao.Dao.SplitBlockTable` | internal/dao/chainBlock.go:12-23 | creates the tables of a block's range, keeps every row, every placement and the soundness of the index |
| `CursorDao.Dao.CreateExtrinsic` | internal/dao/chainExtrinsic.go:12-22 | inserts the new rows only, and keeps the account index sound and free of duplicates |
| `CursorDao.Dao.CreateEvent` | internal/dao/chainEvent.go:10-16 | inserts the new events only, into the table their ids belong to |
| `CursorDao.Dao.UpdateAccountExtrinsicMapping` | model/substrate.go:538-558 | the hook adds the block's table to the account's list unless it is there, and changes nothing else |
| `CursorDao.InsertedMeans` | model/option.go:84-86 | an insert that ignores duplicates keeps every stored row and adds only given rows, one for every new id |
| `CursorDao.FirstGivenStays` | model/option.go:84-86 | of several given rows with one new id, the first is stored |
| `CursorDao.IndexedAllMeans` | model/substrate.go:538-558 | the hooks list a table for an account if and only if it was listed before or a given row of the account lies in it, and keep what was listed in front |
| `CursorDao.IndexedAllIsSound` | model/substrate.go:272-277 | after the hooks of all inserted rows every stored row's table is listed for its account, without duplicates |
| `IndexRace.StepKeepsInv` | model/substrate.go:538-558 | reads, commits and rollbacks of transactions that do not overlap on an account keep the index sound and what they read current |
| `IndexRace.FreshUpdate` | model/substrate.go:543-557 | a hook whose list is still current writes what the hook of a lone transaction writes |
| `IndexRace.IndexStaysSoundIff` | model/substrate.go:538-558 | for every set of transactions, every run keeps the index sound if and only if no two may hold one account at once, or there is only one |
| `IndexRace.LostEntry` | model/substrate.go:538-558 | any two transactions of any set have a run that commits a row in table 1 and lists only table 0 |
| `IndexRace.LostUpdate` | model/substrate.go:543-557 | any two transactions have a run that adds a row in table 1 and one in table 2 to an account listed with table 0, and ends with the list 0, 2 |
| `IndexRace.OnlyCommitsWrite` | model/substrate.go:538-558 | reads and rollbacks change nothing that is stored; a commit adds its row and touches no other account |
| `CursorDao.SkippingIsTransparent` | internal/dao/chainExtrinsic.go:61-72 | skipping tables changes no answer of an account's queries if the list covers the account, and loses a row otherwise |
| `CursorDao.AccountPagesNeedNoIndex` | internal/dao/chainExtrinsic.go:61-72 | with a sound index every page of an account equals the page of a query that scans every table |
| `CursorDao.ExtrinsicWalkIsComplete` | internal/dao/chainExtrinsic.go:50-148 | the whole walk through extrinsics, with or without account and fixed table, ends and gives all visible rows, each once, newest first, although the pages of an account skip tables |
| `CursorDao.EventWalkIsComplete` | internal/dao/chainEvent.go:19-102 | the same for events, for any filter and fixed table |
| `CursorDao.BlockWalkIsComplete` | internal/dao/chainBlock.go:84-158 | with the shown blocks taken from the tables alone: the walk from the first page really shown ends, and gives all of them if and only if that page is full or no missing table hides one; if no table is missing, it does |
| `IndexMigration.MigrateAccountExtrinsicMapping` | internal/script/install.go:149-218 | keeps what was listed and adds exactly the tables that hold a row of the account, up to the first missing table |
| `IndexMigration.MigratedIsSoundIff` | internal/script/install.go:157-180 | the migrated index is sound if and only if every account row beyond the first missing table was listed before |
| `IndexMigration.GapHidesRow` | internal/script/install.go:163-165 | a row in table 2 without table 1: the migrated index misses it and is not sound |
| `IndexMigration.Census` | internal/script/install.go:155-180 | collects for each account exactly the tables below the first missing one that hold a row of it |
| `IndexMigration.Upsert` | internal/script/install.go:182-215 | one account's list stays as it is if it has all found tables, else becomes the sorted list of its entries, duplicates included, and each missing table once; other accounts are untouched |
| `IndexMigration.MergedMeans` | internal/script/install.go:197-214 | a merged list holds exactly what was listed or found, and nothing twice that was not listed twice |
| `CompositeId.ParseUndoesGenerate` | model/substrate.go:400-409 | parsing undoes generating if and only if the index has five digits and the id fits 64 bits |
| `CompositeId.IdsFollowChainOrder` | model/substrate.go:404-409 | inside these limits ids are ordered like (block, index), and id / 10^6 / 10^5 is the table of the block |
| `CompositeId.TransferBlockIsRecovered` | plugins/evm/dao/token.go:214-216 | for all numbers, the block of a receipt id is recovered if and only if its position in the block, in 64 bits, is below 10^9 and the id fits 64 bits |
| `CompositeId.ReceiptIdsFollowChainOrder` | plugins/evm/dao/transaction.go:196-223 | inside these limits receipt ids are ordered like (block, transaction, log) |
| `IndexText.IndexRoundTrip` | model/substrate.go:393-416 | parsing "block-index" undoes printing it if and only if both numbers fit 64 bits |
| `IndexText.ParseUndoesPrint` | util/num.go:264-269 | decimal parsing undoes printing if and only if the number fits 64 bits |
| `IndexText.DecimalMeans` | model/substrate.go:411-416 | the printed text is the decimal digits, most significant first |
| `ParallelRunner.StepKeepsInv` | util/parallel/parallel.go:66-111 | every atomic action keeps the invariant that ties wait group, pool, error list and hand-over order to the tasks' states |
| `ParallelRunner.NoSendAfterClose` | util/parallel/parallel.go:71-102 | in every run, cancelled or not, nobody sends on the error channel once it is closed |
| `ParallelRunner.PoolIsBounded` | util/parallel/parallel.go:71-90 | in every run at most five tasks are in the pool |
| `ParallelRunner.FinishedMeansAllDone` | util/parallel/parallel.go:83-110 | when the runner finishes every task was handed over once, in order, and is done, and the errors are exactly those of the failing tasks, each once |
| `ParallelRunner.NeverStuck` | util/parallel/parallel.go:83-106 | with fewer than five failing tasks before the last one, every unfinished uncancelled state has a next step |
| `ParallelRunner.FinishesIff` | util/parallel/parallel.go:83-106 | some run finishes if and only if fewer than five tasks before the last one fail |
| `ParallelRunner.SafeForAllIff` | util/parallel/parallel.go:83-106 | every list of n tasks can finish, whichever fail, if and only if n is at most 5 |
| `ParallelRunner.CloggedRunsGetStuck` | util/parallel/parallel.go:77-90 | otherwise a run that can go no further hangs in Invoke with five workers blocked on the error channel |
| `ParallelRunner.RunsAreBounded` | util/parallel/parallel.go:66-111 | every run has at most 48 steps a task and four more, so a run that is not stuck finishes |
| `ParallelRunner.FiveTasksNeverClog` | plugins/evm/dao/token.go:104-143 | five tasks, as in the token loader, satisfy the condition whatever fails |
| `Ingest.StepKeepsInv` | internal/service/substrate.go:69-95 | every action of parser, publisher, limiter and workers keeps the invariants on order, heads, tracked blocks, watermark and lost blocks |
| `Ingest.PublishedInOrder` | internal/service/substrate.go:72-90 | in every interleaving the published blocks count up by one from the watermark, without gap or repeat, each at most the finalized height less 2 when checked |
| `Ingest.CaughtUp` | internal/service/substrate.go:56-90 | whenever the publisher waits with no head on its way, every block from the watermark it started from to the last received head less 2 has been published |
| `Ingest.EveryHeadCanBePublished` | internal/service/substrate.go:69-95 | from every waiting state and for every height n other than 0 a run receives n and publishes exactly the blocks from the next one to n - 2 |
| `Ingest.ZeroHeadStops` | internal/service/substrate.go:74-77 | a head of height 0 can stop the publisher, and a stopped publisher publishes nothing more |
| `Ingest.NothingForgotten` | util/mq/jobs.go:23-33 | every published block is queued, in a worker, stored or lost (commit failed, or fill panicked), even if the limiter suppressed its message |
| `Ingest.QuietMeansStored` | internal/observer/go-worker.go:119-140 | once queue and workers are empty, a block from the first published one to lastBlock is stored if and only if it was not lost, in its last commit or a panicking fill |
| `Ingest.QuietIsStoredIff` | internal/dao/db.go:185-194 | all quiet states of all runs have every published block stored if and only if neither a commit can be lost nor a fill panic |
| `Ingest.EverythingCanBeStored` | internal/observer/go-worker.go:119-140 | from every state with a worker some run empties queue and workers, with every published block stored that was not lost before |
| `Ingest.RefilledIff` | internal/service/substrate.go:106-110 | a stored block is filled again if and only if its row carries a codec error, and no action changes a stored row |
| `Ingest.MarkNamesSettledBlock` | internal/dao/chainBlock.go:57-67 | the watermark is the one the session found or names a block that was stored or lost |
| `Ingest.SoleWorkerMarkGrows` | internal/dao/chainBlock.go:46-67 | a single worker never moves a watermark back |
| `Ingest.MarkNeverFallsIff` | internal/dao/chainBlock.go:46-67 | for every set of workers and every starting watermark, no step of any run moves a watermark back if and only if there is at most one worker |
| `Ingest.TwoWorkersMoveMarkBack` | internal/dao/chainBlock.go:57-67 | whatever other workers there are, any two have a run in which a step lowers the watermark |
| `Ingest.LostCommitLeavesHole` | internal/dao/db.go:185-194 | from every first block, a run that ends quietly with that block published and named by both watermarks, but not stored |
| `Ingest.PanicLeavesHole` | internal/service/runtime.go:25-27 | from every first block, a run that ends quietly with that block published but not stored, because its fill panicked |
| `Ingest.NoRepeatIff` | internal/service/substrate.go:82-90 | no run publishes a block twice if and only if the session starts from a watermark above 0 |
| `Ingest.ZeroWatermarkRepeats` | internal/service/substrate.go:82-90 | a run from watermark 0 that publishes block 0 twice |
| `Completeness.BlockStore.CheckCompleteness` | internal/script/install.go:67-127 | for every finalized height, terminates; from 20 blocks on a normal end leaves what was stored and every block from the start block (2 if none is given) to finalized - 20, nothing else; it panics if and only if a missing block cannot be filled, at the first such block |
| `Completeness.BlockStore.CheckRange` | internal/script/install.go:115-125 | one round fills exactly the missing blocks of its range, or stops at the first that cannot be filled |
| `Completeness.BlockStore.GetBlockNumArr` | internal/dao/chainBlock.go:247-251 | the stored block numbers of the range in ascending order, as far as they lie in the table of its end |
| `Completeness.EndOfRange` | internal/script/install.go:106-112 | every range is non-empty, at most 3000 wide, inside one split table and not past the target |
| `Completeness.RangeIsMaximal` | internal/script/install.go:106-112 | a range ends at the target, 3000 blocks on, or with its split table |
| `Completeness.FetchedRange` | internal/script/install.go:115-117 | the fetched list tells exactly which blocks of a range are stored, and its length alone tells whether all are |
| `Completeness.FullCountMeansComplete` | internal/script/install.go:117-117 | as many different block numbers as the range is wide means that none is missing, and conversely |
| `Completeness.TargetWraps` | internal/script/install.go:103-103 | the target is at most the finalized height if and only if that is at least 20, and 2^64 too high otherwise |
| `Completeness.ChecksFromStartIff` | internal/script/install.go:96-105 | a normal end leaves every block from the start block to finalized - 20 stored, whatever was stored before, if and only if the start block is above 0 or there are none |
| `BlockWriter.Dao.CreateChainBlock` | internal/service/block.go:17-111 | with failures anywhere, the committed tables stay as they were or gain every row of the block; the transaction is over, and the deferred rollback changes nothing after a commit |
| `BlockWriter.Dao.DbCommit` | internal/dao/db.go:185-194 | commits once; a failing commit changes nothing and is not reported |
| `BlockWriter.Dao.DbRollback` | internal/dao/db.go:196-205 | does nothing on a finished transaction and drops the work of an open one |
| `BlockWriter.WrittenIsWhole` | internal/service/block.go:73-93 | a block row is visible only together with every extrinsic, event and log row decoded with it, as decoded, with their counts, and no row without its block row |
| `BlockWriter.NewBlockIsWritten` | internal/service/block.go:73-93 | a new block gets its row with both counts, and exactly its decoded extrinsics, events and logs, each at its position |
| `BlockWriter.OtherBlocksUntouched` | internal/service/block.go:73-93 | no other block gains or loses a row |
| `BlockWriter.WritingTwiceIsWritingOnce` | model/option.go:84-86 | processing the same block again leaves all tables unchanged |
| `BlockWriter.StoredRowsNeverChange` | model/option.go:84-86 | whatever is decoded the second time, no stored row changes |
| `BlockWriter.CountsMatchIff` | internal/service/block.go:88-90 | after a write the counts match the rows if and only if the block is new or not decoded into more items than it has |
| `BlockWriter.SecondDecodeBreaksCount` | internal/service/block.go:88-92 | a second decode with one more event inserts the event and leaves the block row with the old count and codec error |
| `BlockWriter.OtherCountsKept` | internal/service/block.go:88-92 | writing one block keeps the counts of every other block right |
| `RuntimeSpec.Runtimes.CreateRuntimeVersion` | internal/dao/runtimeVersion.go:9-21 | keeps the lowest block offered for each spec and its fetched metadata, and says whether that is still to be fetched |
| `RuntimeSpec.Runtimes.RegRuntimeVersion` | internal/service/runtime.go:17-31 | offers a spec once a process, panics exactly when its metadata is missing and cannot be found, keeps every row truthful, at or below every offered block and with raw data exactly where metadata was fetched, and touches no other spec |
| `RuntimeSpec.Runtimes.ReloadBlockRuntimeVersion` | model/runtime.go:29-40 | the cache becomes the table sorted by spec |
| `RuntimeSpec.Runtimes.GetBlockRuntimeVersion` | model/runtime.go:42-62 | for any age of the cache and fallback included, the answer is never above the block's spec, and is the block's spec if and only if its row was at or below the block at the last reload, or all rows were above it and the block row answers right |
| `RuntimeSpec.SortedByBlock` | model/runtime.go:33-37 | rows sorted by spec are sorted by block when specs never decrease |
| `RuntimeSpec.ScanIsRightIff` | model/runtime.go:46-53 | the early-exit scan answers the spec of a block if and only if the row of that spec is at or below the block |
| `RuntimeSpec.AnswerIsRightIff` | model/runtime.go:46-61 | the same for any list that was read from a truthful table |
| `RuntimeSpec.OfferedBlocksAreAnswered` | model/runtime.go:46-61 | from the cache as it is, every block offered before the last reload is answered right, and no block gets a spec above its own |
| `RuntimeSpec.NewSpecIsMissed` | model/runtime.go:43-61 | in any state with a cache, the first block of a new spec is answered below its spec if and only if a cached row is at or below it, or the fallback has no row for it and its spec is not 0 |
| `RuntimeSpec.StaleCacheMissesBlock` | model/runtime.go:43-61 | such a state, from an empty table: block 5 is offered, and answered wrong |
| `RuntimeSpec.ScanMissesBlock` | model/runtime.go:46-53 | a truthful list whose row for spec 1 starts at block 7 gives block 5 of spec 1 the spec 0 |
| `RuntimeSpec.FallbackAnswers` | model/runtime.go:54-60 | a block below every row is answered right if its block row is there, and with 0 if not |
| `Fee.WithinOneOfExact` | internal/service/fee.go:49-55 | up to 2 * 10^16 units of weight the fee is within 1 of the exact floored fee |
| `Fee.WithinOneIff` | internal/service/fee.go:49-55 | at weight w every fee is within 1 of its exact value if and only if 0 < w <= 2 * 10^16 |
| `Fee.NoWeightNoFee` | internal/service/fee.go:50-53 | without an estimated or an actual weight the fee is 0; otherwise it is at least base fee plus length fee |
| `Fee.MonotoneInWeight` | internal/service/fee.go:49-55 | more actual weight never lowers the fee |
| `Fee.NeverAboveEstimate` | internal/service/fee.go:45-55 | the actual fee is at most the estimate when the actual weight is at most the estimated one |
| `Fee.NeverAboveIff` | internal/service/fee.go:45-55 | with estimated weight e no fee at a weight up to e exceeds its estimate if and only if e < 2 * 10^16 |
| `Fee.BoundIsSharp` | internal/service/fee.go:49-55 | at 2 * 10^16 units of weight the fee can exceed the estimate |
| `Fee.RoundingError` | internal/service/fee.go:54-54 | the rounded quotient is off by at most half a unit of its last place |
| `Fee.HalvesGoUp` | internal/service/fee.go:54-54 | the rounded quotient is never too low by half a unit, so halves are rounded up |
| `Base58.Encode` | util/base58/base58.go:82-108 | the division loop, the zero loop and the reversal compute the numeral in base 58 with the leading zeros kept |
| `Base58.Decode` | util/base58/base58.go:50-79 | the summing loop computes the bytes of that numeral, and nothing for a string with a foreign character |
| `Base58.DecodeUndoesEncode` | util/base58/base58.go:50-108 | decoding undoes encoding on every byte sequence |
| `Base58.EncodeUndoesDecode` | util/base58/base58.go:50-108 | encoding undoes decoding if and only if the string is over the alphabet; all others decode to nothing |
| `Base58.EncodedMeans` | util/base58/base58.go:82-108 | the text is the same number in base 58, most significant letter first, with one 1 for each leading zero byte |
| `Base58.TableInvertsAlphabet` | util/base58/base58.go:6-44 | letters ascend with the digit and are the ASCII digits and letters without 0, O, I and l; the lookup table inverts them and marks every other character |
| `Radix.ConvertBack` | util/base58/base58.go:50-108 | converting a digit list to another base and back, leading zeros counted apart, changes nothing |
| `Hex.HexRoundTrip` | util/hex.go:32-43 | decoding undoes encoding on every byte sequence, with or without prefix |
| `Hex.HexTextRoundTrip` | util/hex.go:32-43 | encoding undoes decoding if and only if the text is lower-case hex of even length |
| `Hex.HexTextAt` | util/hex.go:39-43 | every byte is written as two lower-case digits, the high one first |
| `Hex.GoodPairAt` | util/hex.go:32-37 | byte i of a decoded text is the number of its pair of digits if no pair up to it is wrong |
| `Hex.BadPairAt` | util/hex.go:32-37 | every byte from the first wrong pair on is 0 |
| `Ss58.DecodeUndoesEncode` | util/ss58/ss58.go:9-72 | for any hash with 64-byte output, decoding undoes encoding for every account of 1, 2, 4, 8 or 32 bytes and every type |
| `Ss58.EncodeUndoesDecode` | util/ss58/ss58.go:9-72 | an accepted address is re-encoded to itself, with its first byte as type, if and only if its payload has 3, 4, 6, 10 or 35 bytes |
| `Ss58.LongChecksumIsRewritten` | util/ss58/ss58.go:9-72 | for every hash, every address of a two-byte account with a two-byte checksum is accepted and re-encoded differently |
| `Ss58.AcceptedPayload` | util/ss58/ss58.go:35-47 | an accepted payload is its type byte, its account and the checksum of both |
| `Ss58.AcceptedIff` | util/ss58/ss58.go:9-48 | an address is accepted if and only if its payload has a supported length and ends in the first bytes of the hash of SS58PRE, type byte and account |
| `Ss58.WrittenBytes` | util/ss58/ss58.go:50-72 | the written payload is type byte, account and the first bytes of the hash of SS58PRE and both |
| `Ss58.ChecksumLengths` | util/ss58/ss58.go:15-34 | the checksum length for every payload length, and for every account length written |
| `Uint256.U256` | pkg/go-solidity-sha3/solsha3.go:507-509 | for every integer exactly 32 bytes, the big-endian form of n mod 2^256 |
| `Uint256.ReducedMeans` | pkg/go-solidity-sha3/solsha3.go:507-509 | the reduced number is between 0 and 2^256 - 1 and differs from n by a multiple of 2^256, for negative n as well |
| `Uint256.ReadBits` | pkg/go-solidity-sha3/solsha3.go:616-625 | the word-by-word loop writes the low bytes of the number from the end of any buffer, and keeps the bytes in front of its words |
| `Uint256.PaddedBigBytes` | pkg/go-solidity-sha3/solsha3.go:586-593 | both paths give the same n bytes for a number that fits, and all its bytes for a longer one |
| `Uint256.Uint256Array` | pkg/go-solidity-sha3/solsha3.go:524-533 | the encoding is the 32-byte words of the integers, one after the other |
| `Uint256.ArraysAreFaithful` | pkg/go-solidity-sha3/solsha3.go:524-533 | two lists with the same encoding have the same length and agree mod 2^256 |
| `Abi.AbiStringDecoder` | util/eth.go:12-26 | the decoder computes the specified outcome on every text, slice panics included |
| `Abi.DataAnalysis` | util/eth.go:28-36 | exactly the whole 64-character words of the text |
| `Abi.DecodesEncodedString` | util/eth.go:12-26 | a standard single-string encoding decodes to its bytes without trailing zeros, or fails if twice the length overflows |
| `Abi.InvertsStrings` | util/eth.go:12-26 | the decoder inverts the standard encoding if and only if the string has no trailing NUL and is shorter than 2^62 bytes |
| `Abi.InvertsBytes32` | util/eth.go:15-17 | a right-padded bytes32 value decodes to itself if and only if it has no trailing NUL |
| `Abi.DecodesCells` | util/eth.go:22-25 | for any two numbers as offset and length and any words behind them: the bytes at word offset % 32 without trailing zeros, or a panic if there are not enough |
| `Abi.PlainWord` | util/num.go:21-53 | a word of hex digits is its number if that fits 63 bits, and 0 otherwise |
| `Abi.SignedWord` | util/num.go:21-53 | a sign in front of the digits counts |
| `Erc721.Store.RefreshErc721Holders` | plugins/evm/dao/erc721.go:81-117 | with an injective hash of the joined texts, after a successful answer the token's row names the reported owner or is gone; all else stays, and total_supply moves exactly with the row count |
| `Erc721.RowsAreTheOwners` | plugins/evm/dao/erc721.go:101-109 | the table is exactly one row for each reported owner, filed under the hash of contract, owner and token id |
| `Erc721.OneRowPerToken` | plugins/evm/dao/erc721.go:90-116 | at most one row a token, filed under the hash of the last reported owner |
| `Erc721.InsertConsistent` | plugins/evm/dao/erc721.go:101-109 | the new row's id is never taken, and rows and owners agree after the insert |
| `Erc721.BurnConsistent` | plugins/evm/dao/erc721.go:93-100 | rows and owners agree after a burn |
| `Erc721.ConcatenationIsInjective` | plugins/evm/dao/erc721.go:101-101 | the text that is hashed determines contract, owner and token if addresses have one length |
| `Erc721.IdsCollideIff` | plugins/evm/dao/erc721.go:101-101 | two rows with addresses of one length have the same id if and only if they are the same row |
| `Erc721.IdsCollideWithoutLengths` | plugins/evm/dao/erc721.go:101-101 | without that, two different rows have one id under every hash |

## Left out

- HTTP handlers, command line, configuration, metrics and logging: input, output and thin wrappers.
- Node calls, SCALE decoding, SQL generation and redis networking: a fill either delivers the decoded block or fails; a query on an existing table succeeds.
- blake2b, keccak, sha1 and md5: parameters with the output length, or the injectivity, that the property needs.
- Completeness.BlockStore.CheckCompleteness: assumes that a fill that reports success has stored its block (a swallowed commit error breaks that), and that the inner loop's counter does not wrap, which would take a stored block 2^64 - 1; the fast mode only publishes to a queue.
- CursorDao.Dao.CreateExtrinsic: one transaction at a time; transactions that interleave are in module IndexRace, account by account, with a commit that makes a row and its list visible together.
- BlockWriter.Dao.CreateChainBlock: the rows are texts by position, without their columns; the account hook, which runs in the same transaction, is in module CursorDao; the code that groups events by extrinsic is left out as easy.
- CursorDao.Dao.SplitBlockTable: without the cached name of the last checked table, which only saves a query; the early creation of the next range's tables is the same step.
- CursorDao.Dao.GetExtrinsicListCursor: page sizes are natural numbers (the handlers admit 1 to 100), the filter is any predicate on rows, and rows do not change between the queries of one page.
- RuntimeSpec.Runtimes.GetBlockRuntimeVersion: the block rows of the first split table are given, with the specs they were written with; the initial row that the CBC setup inserts at block 0 is left out.
- ParallelRunner.StepKeepsInv: tasks that panic, values of other types (which are dropped on entry), and `Wait` returning early on a cancelled context.
- Ingest.StepKeepsInv: a worker process that dies with a message in hand, and the queue library's own in-progress list; a job that panics is taken to drop its message, since jobs are enqueued without the library's retry option; enqueueing succeeds, and different blocks have different rate-limit keys. Block numbers are unbounded.
- Base58.TableInvertsAlphabet: alphabet and table are written as ranges of characters; a non-ASCII character counts as one foreign character.
- Uint256.U256: mod 2^256 is taken as such, not as a bit mask on the sign-extended number, and the argument, which Go overwrites with the result, is a value here; PaddedBigBytes and ReadBits are modelled for numbers from 0 on (they would use the absolute value); the switches over Go's integer types are bulk without depth.
- Erc721.Store.RefreshErc721Holders: contract and owner are addresses of one length, as the chain gives them, and the hash has no collisions.
- BlockWriter.WrittenIsWhole: an event's index is its position in the decoded list.
- Redis counters such as count_extrinsic: they are updated outside the transaction and are not exact.
- getExtrinsicSuccess, the account cursors of the EVM interface, and the list of missed numbers (util/num.go): the code does not give an evident intended meaning.
- Service.Service.GetBlocksSampleCursor: rows and answers are one text beside ids, block numbers and account; address encoding of an account column is left out.
- GetExtrinsicFee: remote calls around the fee formula.
