# Verification of the feature store, import, mosaic and paging logic

This project models the logic of a geospatial feature server in Dafny and proves properties of the
model. Six parts of the server are covered, each a stateful or clever form that has to agree with a
simple one.

* **Feature store and import promotion** (`PartitionBound`, `FeatureDb`, `StoreOps`, `StagingDedupe`,
  `FinalizeWorker`, `FinalizeProtocol`, `FinalizeLone`). PostgreSQL is a map of tables, a map of attached LIST
  partitions and one default partition; its own rules (one partition per value, no default row of an
  attached collection, keys unique) are the predicate `FeatureDb.Valid`. The simple form is a map from
  collection id to rows. `FeatureDb` has one function per transaction and proves what it does to that
  map; `StoreOps.Store` runs the same transactions statement by statement; `FinalizeProtocol` lets any
  number of finalize attempts and reconcile passes of one job interleave, crash between transactions
  and start again, beside the work of other collections; `FinalizeLone` says what one of them does
  when it is left alone.
* **Preview masks** (`MaskFlood`). Two stack-driven flood fills over boolean arrays, against
  4-connectivity defined by paths.
* **Mosaic planning** (`GreedyCover`, `BboxTiling`, `BboxSearch`). The greedy cover with the classic
  guarantee, the splitting of search boxes with rounding, and the adaptive search queue.
* **COPY ingest** (`CopyCodec`, `CopyReader`, `CopyLoad`). The escaping codec against a decoder for
  PostgreSQL's text format (COPY, "File Formats", "Text Format"), the chunked reader against a plain
  stream, the batching sink and the two load loops against one parse of the file.
* **Load gate** (`LoadGate`). The gate as an object, and as a machine over runs of arrivals, releases,
  resumptions, time-outs and disconnects.
* **Paging** (`CompositeWalk`, `CompositeMerge`, `KeysetStream`). Offset paging and merged pages over the
  members of a composite collection, and keyset streaming of one collection.

`Lexicographic` holds the code-point order of strings, `FiniteSets` a fact about set sizes, `Paging`
the slice of a page, `Wrappers` `Option` and `Result`.

## Hypotheses, and properties that are false of the code

Where a promise does not hold for every input, the code is modelled as it is, the exact condition is
proved, and a witness shows that it is needed.

* The partition resolver compares bounds after deleting spaces, so it is exact if and only if no other
  attached id equals the collection's id once spaces are deleted (`NoCollapse`,
  `PartitionBound.ResolverExactness`). With ids `a b` and `ab`, dropping one wipes the other
  (`FeatureDb.SpacesCollide`).
* Several places drop a job's staging table by its name without looking whether it is already the live
  partition: the worker's cancelled branch (`app/services/bulk_finalize_worker.py:50-58`), the cancel
  request for a finalizing job (`app/api/routes/jobs.py:246-261`), the watchdog
  (`app/services/bulk_watchdog.py:229-233`) and the orphan staging cleanup
  (`app/services/bulk_staging.py:160-174`). A run keeps the collection's rows at every moment if and only
  if none of these drops meets the live partition (`FinalizeProtocol.RowsKeptIff`). Two witnesses:
  `FinalizeProtocol.LateCancelRequest`, where the user cancels between the swap and the job's completion,
  and `FinalizeProtocol.CancelRace`, where the request comes before the swap, its own drop fails, and a
  second queue entry takes the cancelled branch.
* A job's import mode is a constant of the model. The reconciler infers it again from message text
  (`app/services/bulk_finalize_reconcile.py:69-76`); that it infers the same mode is assumed, and needed:
  an append attempt after a replace commit empties the collection
  (`FinalizeProtocol.AppendAfterReplaceLoses`), and a replace attempt after an append commit keeps the
  rows exactly when every earlier row was staged too (`FinalizeProtocol.ReplaceAfterAppendLoses`).
* The gate's limit is no hard cap: a woken caller counts itself in without looking at the limit, and a
  newcomer may have taken its place by then. A run keeps its callers inside within the limit at every
  moment if and only if no woken caller resumes at a full gate (`LoadGate.CappedIffNoFullResume`), and
  callers inside and woken ones together if and only if no newcomer takes a promised place
  (`LoadGate.PromisedIffNoBarge`). The excess is at most the number of such newcomers, and that bound is
  reached for every limit and number (`LoadGate.ExcessIsBarges`, `LoadGate.ExcessIsReached`).
* The newest-first sort mode gives a scene of unknown time the rank of second 1e9 of the epoch. Such a
  scene therefore comes last if and only if the others are later than that, in September 2001
  (`GreedyCover.UnknownTimeLastIff`).
* An append that cannot create its partition, because the canonical name is taken, ends without
  committing and keeps its staging table; one whose keys are taken ends without committing and drops it
  (`FinalizeLone.LonePassEnds`).
* A woken caller that is cancelled loses its wakeup. Runs that lose at most a given number of wakeups
  never strand a waiter in front of an empty gate if and only if that number is below the limit
  (`LoadGate.StrandedIff`).
* Offset pages of a composite collection are right for all offsets if and only if the cached counts fit
  (`CompositeWalk.PagesExactIffCountsFit`). A filter by date narrows the lists but not the cached counts;
  `CompositeWalk.FilteredListMisses` is such a case.
* The merged page is right for all members, ascending or descending, if and only if its limit is zero or
  offset + limit stays within the item limit (`CompositeMerge.PagesAgreeIff`). Members are fetched in
  the direction of the sort (`app/crud/features.py:758-784`, `app/crud/features.py:847-853`).
* The greedy loop looks at one candidate of each key, the first that the spatial index answers. A
  candidate is looked at in every such order if and only if no other has its key
  (`GreedyCover.SeenIffSole`). The coverage guarantee and the cutoff theorem therefore speak of covers
  whose members share their keys with no other candidate; `GreedyCover.SharedKeyHidesCover` shows that
  this is needed. The adaptive search merges features by key (`app/services/mosaic_plan.py:1495-1499`)
  before they become candidates.
* The comparison of candidates is the order by gain, then by smaller footprint, then by tie key, except
  that ratios within 1e-15 of each other count as equal; `GreedyCover.PickBetterExactly` says which pairs
  these are, and up to ten million cells there are none (`GreedyCover.SmallIsClear`).
* The COPY round trip returns the rows themselves if and only if every row has a column
  (`CopyCodec.RoundTrip`).
* The comment on the automatic grid in `app/core/config.py` speaks of 2x2 or 3x3; the code goes up to 10
  cells an axis, and the model follows the code. In automatic mode the cells of an axis are all at most
  the threshold if and only if no more than ten are needed (`BboxTiling.AutoCellsFitIff`).

## Model

| member | source | states |
|---|---|---|
| `PartitionBound.ParsePrinted` | app/db/features_partitions.py:40-47 | Parsing the bound that the catalog prints for a collection gives that collection id back, for every id, whatever quotes, brackets or spaces it holds. |
| `PartitionBound.PrintedBoundsDiffer` | app/db/features_partitions.py:36-47 | Two collections print the same bound exactly when they have the same id. |
| `PartitionBound.LiteralsCollapse` | app/db/features_partitions.py:36-37 | Two ids look the same to the resolver exactly when they become equal once spaces are deleted. |
| `PartitionBound.StripCommutesWithDoubling` | app/db/features_partitions.py:36-37 | Deleting spaces from the escaped literal is escaping the id with spaces deleted. |
| `PartitionBound.ResolverExactness` | app/db/features_partitions.py:50-59 | The resolver finds the collection's own partition, or none when there is none, in every catalog order, if and only if no other attached id collapses to the same text. |
| `FeatureDb.RowsOfPlace` | alembic/versions/0004_partition_features_by_collection_id.py:5-40 | A collection's rows lie in its own partition when it has one and in the default partition otherwise. |
| `FeatureDb.LiveIsKeyed` | alembic/versions/0004_partition_features_by_collection_id.py:5-40 | The partition invariant implies that the primary key holds over the whole table, across partitions. |
| `FeatureDb.InsertFrame` | app/services/bulk_staging.py:115-134 | A successful insert adds exactly the given rows to what queries see, keeps the invariant and attaches nothing. |
| `FeatureDb.EnsureRefines` | app/db/features_partitions.py:161-225 | Ensuring a partition keeps the invariant and every collection's rows, attaches at most the one partition, touches no other table, and fails exactly when the collection has none and its canonical name is taken. |
| `FeatureDb.SwapRefines` | app/db/features_partitions.py:394-473 | The swap always commits after the bound check; then the collection's rows are exactly the staged rows, the staging table is its partition, and other collections are untouched. |
| `FeatureDb.SwapAgain` | app/db/features_partitions.py:435-447 | Repeating a swap that already committed changes no row and no attachment. |
| `FeatureDb.SwapTouches` | app/db/features_partitions.py:394-473 | A committed swap changes no table except the staging table, the canonical leftover and the old partition. |
| `FeatureDb.AttachedAfterSwap` | app/db/features_partitions.py:444-460 | After a first swap the staging table has taken the place of the old partition among the attached ones, and of no other. |
| `FeatureDb.SwapLeavesNoLeftover` | app/db/features_partitions.py:394-473 | After a swap the old partition's table is gone, and so is a detached table of the canonical name. |
| `FeatureDb.WipeLeavesNoLeftover` | app/db/features_partitions.py:234-294 | After a wipe the partition's table and a detached leftover are gone; an ensure right after it succeeds if and only if the canonical name is not another collection's partition. |
| `FeatureDb.DropCollectionRefines` | app/db/features_partitions.py:234-294 | Dropping a collection's data leaves it empty and without partition, with the invariant and all other collections' rows kept. |
| `FeatureDb.AppendRefines` | app/services/bulk_staging.py:115-134 | The append insert adds exactly the staged rows or nothing; it fails exactly when the staging table is gone or one of its keys is taken in the collection. |
| `FeatureDb.CleanupStagingRefines` | app/services/bulk_staging_recovery.py:136-155 | Cleaning up a failed import keeps other collections' rows; it empties the collection exactly when the staging table was its partition, and removes the staging table. |
| `FeatureDb.WrongPartitionIsLost` | app/db/features_partitions.py:234-294 | When the resolver answers with another collection's partition, a drop empties that other collection; it is harmless exactly when that partition was empty. |
| `FeatureDb.SpacesCollide` | app/db/features_partitions.py:36-59 | With ids differing in one space the resolver may answer with the other's partition, and dropping the one wipes the other. |
| `FeatureDb.EnsureKeepsValid` | app/db/features_partitions.py:161-225 | Ensuring keeps the partition invariant even when the resolver answered wrongly. |
| `FeatureDb.SwapKeepsValid` | app/db/features_partitions.py:394-473 | So does the swap. |
| `FeatureDb.DropCollectionKeepsValid` | app/db/features_partitions.py:234-294 | So does dropping a collection's data. |
| `StoreOps.Store.Resolve` | app/db/features_partitions.py:50-59 | The catalog scan answers as the resolver relation allows, and exactly right when no id collapses. |
| `StoreOps.Store.EnsurePartition` | app/db/features_partitions.py:161-225 | The statements leave either the old state and an error or the ensure transaction's state and the partition's name; without collapsing ids it succeeds exactly when a partition exists or the name is free, keeps all rows, and the returned table is the collection's partition. |
| `StoreOps.Store.SwapStagingIntoPartition` | app/db/features_partitions.py:361-473 | The statements commit exactly the swap transaction or change nothing; without collapsing ids the swap commits whenever the bound check passes. |
| `StoreOps.Store.DropCollectionData` | app/db/features_partitions.py:234-294 | It rejects an empty id or one with two dots and changes nothing then; otherwise it is the drop transaction, and the returned name is a table that is gone. |
| `StoreOps.Store.CleanupOrphans` | app/db/features_partitions.py:310-332 | It drops exactly the detached leftovers of collections that have another partition, each once, and changes nothing that a query sees. |
| `StoreOps.Store.AppendStaging` | app/services/bulk_staging.py:115-134 | One insert from staging: the append transaction or no change. |
| `StoreOps.Store.CleanupFailedStaging` | app/services/bulk_staging_recovery.py:136-155 | Other collections keep their rows; the collection loses its rows exactly when staging was attached; the staging table is gone; the collection has a partition afterwards exactly when it reports success, and it does unless the canonical name is taken by a detached table. |
| `StoreOps.Store.Promote` | app/services/bulk_staging.py:80-138 | A promote that reports success has put exactly the staged rows in place (replace) or added them (append) and reports their number, except that an empty staging table succeeds with the old rows kept, also for replace; any other ending leaves the collection as it was; success, conflict and failure are told apart by the state found. |
| `StoreOps.Store.PromoteByInsert` | app/services/bulk_staging.py:112-138 | The same for an append promote with its one retry after a key conflict. |
| `StoreOps.Store.PromoteBySwap` | app/services/bulk_staging.py:102-111 | The same for a replace promote, including the one that finds its swap already done. |
| `StoreOps.InsertPromoted` | app/services/bulk_staging.py:112-138 | The three endings of an append promote follow from ensure and insert, each with its rows, condition and count. |
| `StagingDedupe.DedupeKeepsNewest` | app/services/bulk_staging_recovery.py:86-111 | Deduplication keeps, of the rows of each key, the one updated last, and of those updated together the one furthest back in the table; it loses no key and removes exactly the rows counted as duplicates, as many as there are more rows than keys. |
| `StagingDedupe.NumberedOneIsNewest` | app/services/bulk_staging_recovery.py:93-104 | A row is numbered one exactly when every row of its key was updated earlier, or at the same time and stands no further back. |
| `StagingDedupe.CountIsZeroWhenKeyed` | app/services/bulk_staging_recovery.py:60-83 | The duplicate count is zero exactly when no key repeats, and then deduplication removes nothing. |
| `StagingDedupe.StagingTable.DuplicateCount` | app/services/bulk_staging_recovery.py:60-83 | The count is the number of rows beyond one for each key, and zero for a missing table. |
| `StagingDedupe.StagingTable.Dedupe` | app/services/bulk_staging_recovery.py:86-111 | It leaves one row of each key, none updated earlier than another of its key or, updated together, standing before it, and returns how many rows it removed. |
| `StagingDedupe.StagingTable.Prepare` | app/services/bulk_staging_recovery.py:114-133 | On a quiescent table preparing never raises and leaves the row updated last of each key, by position when updated together; it returns how many it removed, and a second run removes nothing. |
| `FinalizeWorker.ProcessFinalizeJob` | app/services/bulk_finalize_worker.py:47-197 | An undisturbed attempt completes exactly when the job is not cancelled and either nothing is staged or the promote can succeed; only then rows change, to exactly the imported ones, and it reports their number, or the queue entry's number when nothing was staged; an abandoned attempt had a key conflict and dropped its staging table. A cancelled attempt that finds staging attached empties the collection and no other. |
| `FinalizeWorker.DuplicatesAbandoned` | app/services/bulk_finalize_worker.py:145-153 | A key conflict that survives the retry ends abandoned, with the collection and all others unchanged. |
| `FinalizeProtocol.StepKeepsDb` | app/services/bulk_finalize_worker.py:47-209 | Every transaction of a finalize attempt or reconcile pass keeps the invariant and other collections' rows, and never undoes a commit, except the cancelled branch on a live partition. |
| `FinalizeProtocol.StepGivesFact` | app/services/bulk_finalize_worker.py:47-197 | Whatever a process goes on to do, it has established what that next step relies on. |
| `FinalizeProtocol.NextKeepsInv` | app/services/bulk_finalize_reconcile.py:206-402 | Starts, steps, crashes, status writes, drops of the staging table by name and other collections' work keep the invariant of a job, unless a drop meets the live partition. |
| `FinalizeProtocol.RunKeepsInv` | app/services/bulk_finalize_worker.py:47-209 | Every state of every run satisfies it up to the first drop that meets the live partition, with any number of interleaved attempts and crashes. |
| `FinalizeProtocol.ExactlyOnce` | app/services/bulk_finalize_worker.py:47-209 | In every run without such a drop the collection holds at every moment either its rows from before the import or those after it; once after, always after; and abandoning is never reached with staging attached. That passes do commit is `FinalizeLone.LonePassEnds`. |
| `FinalizeProtocol.RowsKeptIff` | app/services/bulk_finalize_worker.py:47-209 | Every run keeps the rows at every moment, old until a commit and new from then on, if and only if no drop by name meets the live partition. |
| `FinalizeLone.LonePassEnds` | app/services/bulk_finalize_worker.py:47-209 | After any run without a late drop, an attempt or reconcile pass that is left alone can always go on until it ends, after at most eight steps. It commits exactly when no earlier pass did, staging exists and holds rows, the worker does not find the job cancelled, and, for an append, the partition exists or its name is free and no staged key is taken; the rows, the attachment and whether staging is still there follow exactly. |
| `FinalizeLone.FirstPassImports` | app/services/bulk_staging.py:80-138 | The first pass over a finished load with rows, started by the worker or the reconciler and not cancelled, leaves the rows after the import when the promote can succeed and those before it otherwise; staging is then gone (append) or the live partition (replace). |
| `FinalizeLone.LonePassExists` | app/services/bulk_finalize_reconcile.py:206-402 | Every run with no process left, whatever crashed in it, extends by such a pass that ends. |
| `FinalizeProtocol.LateDropLoses` | app/services/bulk_staging.py:56-59 | A drop that meets the live partition leaves the collection of a committed import without rows. |
| `FinalizeProtocol.OthersUntouched` | app/services/bulk_finalize_worker.py:47-209 | No step of a job shows in another collection. |
| `FinalizeProtocol.LostExactlyByLateDrop` | app/api/routes/jobs.py:246-261 | After a commit a step keeps the imported rows if and only if it does not drop the live partition under its staging name, by the cancelled branch or from outside. |
| `FinalizeProtocol.CancelRace` | app/services/bulk_finalize_worker.py:50-58 | A run with one cancel request, before the swap, whose own drop fails, and no other drop from outside; a second attempt takes the cancelled branch and the collection ends with no rows. |
| `FinalizeProtocol.LateCancelRequest` | app/api/routes/jobs.py:246-261 | A run in which an attempt commits its swap and a cancel request then drops the staging table: no attempt saw a cancelled job, and the collection ends with no rows. |
| `FinalizeProtocol.AppendAfterReplaceLoses` | app/services/bulk_finalize_reconcile.py:69-76 | After a replace commit, an attempt in append mode fails its insert twice and abandons, which empties the collection. |
| `FinalizeProtocol.ReplaceAfterAppendLoses` | app/services/bulk_finalize_reconcile.py:69-76 | After an append commit, an attempt in replace mode leaves exactly the staged rows, which is right if and only if every earlier row was staged too. |
| `FinalizeProtocol.OtherCollectionsWork` | app/db/features_partitions.py:161-473 | Another collection's swap, ensure and wipe are steps that the runs above allow. |
| `FinalizeProtocol.OtherAppend` | app/services/bulk_staging.py:112-138 | So is another collection's append insert. |
| `FinalizeProtocol.OtherCleanup` | app/services/bulk_staging_recovery.py:136-155 | So are the cleanup and the drop by name of another job's staging table. |
| `FinalizeProtocol.OtherOrphans` | app/services/bulk_finalize_reconcile.py:437-441 | So is the orphan cleanup with which each reconcile pass starts. |
| `FinalizeProtocol.InsertStep` | app/services/bulk_staging.py:115-134 | After one append commit, a second insert of the same rows fails, so rows are never added twice. |
| `MaskFlood.ComponentIsMaximal` | app/services/mosaic_preview_footprint.py:64-91 | The component of a cell is connected, lies in the mask, and contains every connected part of the mask that holds the cell. |
| `MaskFlood.BinaryFillHoles` | app/services/mosaic_preview_footprint.py:27-61 | The result is true exactly where the mask was true or no 4-connected background path leads to the border. |
| `MaskFlood.FloodFromBorder` | app/services/mosaic_preview_footprint.py:33-57 | The flood ends, although the stack may hold a cell several times, with every background cell visited that reaches the border, and no other. |
| `MaskFlood.TraceComponent` | app/services/mosaic_preview_footprint.py:73-87 | Tracing from an unvisited true cell gives exactly its component, its size, and marks exactly it as visited. |
| `MaskFlood.LargestConnectedComponent` | app/services/mosaic_preview_footprint.py:64-91 | The result is the first largest 4-connected component in scan order, or the mask itself when it is empty. |
| `MaskFlood.RefineMask` | app/services/mosaic_preview_footprint.py:190-191 | Taking the largest component and filling its holes gives a 4-connected mask whose every false cell reaches the border. |
| `MaskFlood.FirstLargestIsLargest` | app/services/mosaic_preview_footprint.py:64-91 | No 4-connected region of the mask is larger than the first largest component. |
| `MaskFlood.FilledHasNoHoles` | app/services/mosaic_preview_footprint.py:27-61 | After filling, every false cell reaches the border. |
| `MaskFlood.FilledIsLeast` | app/services/mosaic_preview_footprint.py:27-61 | Any mask without holes that contains the original contains the filled one. |
| `MaskFlood.FillIdempotent` | app/services/mosaic_preview_footprint.py:27-61 | Filling a filled mask changes nothing. |
| `MaskFlood.HoleTouchesMask` | app/services/mosaic_preview_footprint.py:27-61 | From every filled hole there is a path inside the filled mask to an original cell. |
| `MaskFlood.FillKeepsConnected` | app/services/mosaic_preview_footprint.py:190-191 | Filling the holes of a 4-connected mask keeps it 4-connected. |
| `GreedyCover.PickBetterExactly` | app/services/mosaic_plan.py:465-482 | For all areas the comparison is the order by gain, then smaller footprint, then tie key, except that at equal gain two ratios within the tolerance are decided by the tie key; which pairs these are is given exactly. |
| `GreedyCover.SmallIsClear` | app/services/mosaic_plan.py:465-482 | With footprints of at most ten million cells there is no such pair. |
| `GreedyCover.SeenIffSole` | app/services/mosaic_plan.py:543-557 | A candidate that overlaps what is left is looked at, whatever the spatial index answers, if and only if no other candidate has its key. |
| `GreedyCover.OfferKeepsBest` | app/services/mosaic_plan.py:553-576 | Offering one more candidate keeps the best of those offered, as far as the tolerance can tell. |
| `GreedyCover.BestCandidate` | app/services/mosaic_plan.py:538-578 | The chosen candidate is unused, gains something, and no other unused candidate with a key of its own gains more or, without near ties, beats it. |
| `GreedyCover.GreedyCoverAoi` | app/services/mosaic_plan.py:485-595 | Every pick is new, gains, and is the best of its round; what is reported as left is the area minus the picks, and the fraction times the area is its size; no pick was made once at most (1 - coverage) of the area was left, nor, after the first, one that gains less than the fraction of what is left; and a loop that ended before the cap left no more than that or no free candidate with a key of its own that gains enough. |
| `GreedyCover.NextPick` | app/services/mosaic_plan.py:531-584 | One round either continues the run with a pick that was needed, in numbers of cells, or stops for one of the three reasons: enough covered, nothing to gain, or too small a gain. |
| `GreedyCover.CoveredMeans` | app/services/mosaic_plan.py:532-534 | Enough is covered if and only if nothing is left or at most (1 - coverage) times the cells of the area. |
| `GreedyCover.PicksFollowSortMode` | app/services/mosaic_plan.py:452-482 | In every run without near ties, a pick gains more than any other free candidate with a key of its own, or has the smaller footprint, or comes first in the sort mode: the lower cloud cover or the later time, unknown ones counting as 1e9, then the smaller key. |
| `GreedyCover.UnknownTimeLastIff` | app/services/mosaic_plan.py:459-462 | Between equal gains and footprints a scene of known time comes before one of unknown time if and only if it is later than second 1e9 of the epoch. |
| `GreedyCover.LeftIsAoiMinusUnion` | app/services/mosaic_plan.py:585-595 | What is left is the area minus the union of the selected footprints. |
| `GreedyCover.GreedyGuarantee` | app/services/mosaic_plan.py:485-595 | If some k candidates whose keys no other candidate has cover the area, then after t picks k^t times what is left is at most (k-1)^t times the area. |
| `GreedyCover.OnePick` | app/services/mosaic_plan.py:554-588 | One pick leaves at most (k-1)/k of what was left, for such a cover of k candidates. |
| `GreedyCover.PickTakesShare` | app/services/mosaic_plan.py:554-576 | If k such candidates cover the area and no free one gains more than g, then at most k*g cells are left. |
| `GreedyCover.CoverCounts` | app/services/mosaic_plan.py:554-576 | Cells covered by k footprints of which none covers more than g number at most k*g. |
| `GreedyCover.CutoffNeverEarly` | app/services/mosaic_plan.py:577-584 | With such a cover and a marginal fraction of at most 1/k the loop never stops while more than (1 - coverage) times the cells of the area are left, neither by the cutoff nor for want of gain. |
| `GreedyCover.SharedKeyHidesCover` | app/services/mosaic_plan.py:554-557 | Two candidates with one key: the first hides the other, and the loop ends with a cell uncovered although one candidate covers the area. |
| `BboxTiling.Round6Monotone` | app/services/mosaic_plan.py:131-143 | Rounding to six decimals, half to even, keeps the order of coordinates. |
| `BboxTiling.Round6Near` | app/services/mosaic_plan.py:131-143 | It moves a coordinate by at most half a millionth. |
| `BboxTiling.Round6Exactly` | app/services/mosaic_plan.py:131-143 | The result is the nearest whole number of millionths, and of two the even one. |
| `BboxTiling.Round6Apart` | app/services/mosaic_plan.py:1046-1059 | After rounding, the 1e-9 test for a flat box is the exact test. |
| `BboxTiling.DedupeBboxes` | app/services/mosaic_plan.py:1046-1059 | The loop keeps the first of equal rounded boxes and drops flat ones. |
| `BboxTiling.DedupedMembers` | app/services/mosaic_plan.py:1046-1059 | The result holds exactly the rounded input boxes that are not flat, each once. |
| `BboxTiling.RoundedGridTiles` | app/services/mosaic_plan.py:1046-1059 | The cells of any rising grid, after rounding, dedupe and dropping of flat ones, cover the rounded box and have disjoint interiors. |
| `BboxTiling.SubdivideTiles` | app/services/mosaic_plan.py:131-143 | The 2x2 split of a box that is not degenerate gives at most four boxes that tile its rounding. |
| `BboxTiling.SplitInitialSearchBboxes` | app/services/mosaic_plan.py:1062-1102 | The nested loops answer the grid of the box, deduplicated, the box itself when it is small enough, or nothing when it is flat. |
| `BboxTiling.EvenGrid` | app/services/mosaic_plan.py:1091-1102 | The loops produce the cells of the even grid, bottom row first, the last column and row ending at the box's own edge. |
| `BboxTiling.InitialSplitTiles` | app/services/mosaic_plan.py:1062-1102 | A box wider and taller than 1e-8 is kept whole or split into cells that tile its rounding. |
| `BboxTiling.InitialSplitWhole` | app/services/mosaic_plan.py:1075-1092 | A box is kept whole if and only if neither side exceeds the threshold (6 unless configured, at least 0.1); otherwise each axis gets the configured number of cells, or the least number from two on that keeps a cell within the threshold, and in either case at most ten. |
| `BboxTiling.CellsFitIff` | app/services/mosaic_plan.py:1084-1097 | In either mode all unrounded cells of an axis are at most the threshold if and only if that many thresholds span it. |
| `BboxTiling.AutoCellsFitIff` | app/services/mosaic_plan.py:1082-1092 | In automatic mode, for every axis and threshold, no unrounded cell exceeds the threshold if and only if no more than ten cells are needed. |
| `BboxTiling.InitialSplitHolds` | app/services/mosaic_plan.py:1062-1102 | Every point of the rounded box lies in a box of the initial split, also after the search has deduplicated them. |
| `BboxTiling.CapExceedsThreshold` | app/services/mosaic_plan.py:1082-1092 | A witness at the cap: a box 100 degrees wide is cut in ten cells that exceed a threshold of 6. |
| `BboxSearch.FetchBboxesAdaptive` | app/services/mosaic_plan.py:1456-1541 | The search ends; it makes at most `budget` calls, none deeper than the depth limit, at most the size of one full tree for each seed box. Every call is for a seed or for a quarter of a box called before that failed, or is at least two degrees and twice the least size long and returned fewer than ten features, and that is wider or taller than the least size. With budget left, every seed and every quarter of every such box above the depth limit was called, and every point of every seed lies in a fetched box that was not retried. |
| `BboxSearch.PointIsSearched` | app/services/mosaic_plan.py:1488-1531 | When all children of split boxes were fetched, every point of a fetched box lies in a fetched box that is not to be retried. |
| `BboxSearch.SplitThenSearched` | app/services/mosaic_plan.py:1543-1550 | Splitting the area of interest and searching its cells with budget left leaves no point of the rounded area out. |
| `BboxSearch.TreeSize` | app/core/config.py:314 | A full tree has (4^(depth+1)-1)/3 boxes, 21 for depth two. |
| `BboxSearch.SplitWeighsLess` | app/services/mosaic_plan.py:1506-1531 | Replacing a box by its children never raises the calls still possible for its seed. |
| `BboxSearch.WaveKeepsInv` | app/services/mosaic_plan.py:1488-1494 | Taking a wave off the queue keeps the search invariant. |
| `BboxSearch.AnswerKeepsInv` | app/services/mosaic_plan.py:1495-1531 | So does handling one answer and queueing the children of a box that splits. |
| `BboxSearch.HandleAnswers` | app/services/mosaic_plan.py:1495-1531 | Handling a wave merges exactly its features and errors and keeps the invariant. |
| `BboxSearch.PushChildren` | app/services/mosaic_plan.py:1526-1531 | The children of a split box go in front of the queue, in reverse order of subdivision, unless the budget is spent. |
| `BboxSearch.MergedKeys` | app/services/mosaic_plan.py:1495-1499 | The merged features are exactly those that some call returned, one for each key. |
| `BboxSearch.SplitsMeans` | app/services/mosaic_plan.py:1508-1524 | A box splits exactly when splitting is on, its depth and size allow it, and it failed or is large and returned fewer than ten features. |
| `BboxSearch.MergedLast` | app/services/mosaic_plan.py:1495-1499 | The merged value of each key is the last one any call returned for it. |
| `BboxSearch.ErrorsLast` | app/services/mosaic_plan.py:1533-1541 | The reported errors are, for each named catalog that failed, its last one. |
| `BboxSearch.AllErrsOrder` | app/services/mosaic_plan.py:1500-1501 | The errors stand in the order of the calls. |
| `CopyCodec.EncodeCopyRow` | app/services/bulk_copy_ingest.py:199-208 | The loop encodes a row as its escaped fields between tabs with a newline at the end. |
| `CopyCodec.EscapedOne` | app/services/bulk_copy_ingest.py:205-206 | The four replacements together act on each character by itself; none touches what an earlier one wrote. |
| `CopyCodec.DecodeEncodedField` | app/services/bulk_copy_ingest.py:199-208 | A field reads back as itself; null and the two characters backslash and N stay apart. |
| `CopyCodec.DecodeJoined` | app/services/bulk_copy_ingest.py:199-208 | A line reads back as its row; no field content is taken for a delimiter. |
| `CopyCodec.LineOfRow` | app/services/bulk_copy_ingest.py:199-208 | The first line of a file is exactly the first row's text. |
| `CopyCodec.NoEndMarker` | app/services/bulk_copy_ingest.py:270-276 | No row is written as the end-of-data marker. |
| `CopyCodec.DecodeEncoded` | app/services/bulk_copy_ingest.py:199-276 | Decoding an encoded file by PostgreSQL's rules never fails and returns every row, one without columns as one empty column. |
| `CopyCodec.RoundTrip` | app/services/bulk_copy_ingest.py:199-276 | It returns exactly the original rows if and only if every row has a column. |
| `CopyCodec.EncodingIsInjective` | app/services/bulk_copy_ingest.py:199-208 | Different rows are never encoded alike. |
| `CopyCodec.RowEndsLine` | app/services/bulk_copy_ingest.py:199-208 | An encoded row holds one raw newline, at its end, and no raw carriage return. |
| `CopyReader.RowCopyReader.Read` | app/services/bulk_copy_ingest.py:226-249 | A read answers what a plain stream of the encoding would, consumes exactly that, and leaves the carry empty or the tail of the row last taken. |
| `CopyReader.RowCopyReader.ReadAll` | app/services/bulk_copy_ingest.py:227-231 | Reading with no limit returns all that is left. |
| `CopyReader.RowCopyReader.ReadLine` | app/services/bulk_copy_ingest.py:252-267 | A readline answers the first line of what is left. |
| `CopyReader.AnswersArePrefix` | app/services/bulk_copy_ingest.py:211-267 | Under any mix of reads and readlines the answers joined are a prefix of the encoding, and what is left is the rest. |
| `CopyReader.EmptyMeansEnd` | app/services/bulk_copy_ingest.py:226-249 | A read of n returns min(n, left) characters; an empty answer means the end unless nothing was asked for. |
| `CopyLoad.ParseLinesBatch` | app/services/bulk_copy_ingest.py:450-469 | A batch parses to its lines' rows in order and the sum of their failures. |
| `CopyLoad.StagingCopier.FlushBatch` | app/services/bulk_copy_ingest.py:322-338 | One COPY, chunk by chunk, adds exactly the batch to the table or nothing. |
| `CopyLoad.StagingCopier.Add` | app/services/bulk_copy_ingest.py:304-313 | Table and buffer together hold exactly the rows added, in order; afterwards less than a batch is buffered; it returns the number written. |
| `CopyLoad.StagingCopier.FlushFinal` | app/services/bulk_copy_ingest.py:315-320 | Afterwards the buffer is empty and every added row is in the table. |
| `CopyLoad.Loader.LoadOneWorker` | app/services/bulk_copy_ingest.py:379-392 | A completed load holds every row of the file in order and the right counters, looked at the job's status before every 2000th line and never found it cancelled; an abandoned one holds whole batches of the first rows, and without a refused COPY its last look found the job cancelled. |
| `CopyLoad.Loader.LoadPipelined` | app/services/bulk_copy_ingest.py:393-443 | The same for the pipelined loop, which looks once for each batch of lines that are not blank, and never holds more than the allowed number of batches, however it ends. |
| `CopyLoad.Loader.Feed` | app/services/bulk_copy_ingest.py:410-427 | One line more is accounted for between table, buffer, pool and open batch, in order. |
| `CopyLoad.Loader.DrainOne` | app/services/bulk_copy_ingest.py:401-406 | Draining the oldest batch moves its rows on without loss or reordering, or abandons the load. |
| `CopyLoad.Loader.Load` | app/services/bulk_copy_ingest.py:347-447 | What is loaded, and with which counters, does not depend on the number of workers, and is the parse of every line, blank or not, when parsing answers nothing on whitespace; a load that completes never found the job cancelled, and without refusals and cancels it completes. |
| `CopyLoad.ParseQueuePush` | app/services/bulk_copy_ingest.py:415-427 | Batches handed to the pool in order parse to the same rows as the lines in one piece. |
| `CopyLoad.SkippingIsHarmless` | app/services/bulk_copy_ingest.py:411-412 | Leaving out lines of whitespace changes nothing when parsing answers nothing on them. |
| `LoadGate.SharedGate.TryEnter` | app/services/db_load_gate.py:62-69 | A caller enters below the limit and otherwise goes to the left end of the deque. |
| `LoadGate.SharedGate.Leave` | app/services/db_load_gate.py:71-75 | A release frees a place and takes the leftmost waiter off the deque. |
| `LoadGate.SharedGate.GiveUp` | app/services/db_load_gate.py:90-94 | Giving up removes the caller's event if it is still queued. |
| `LoadGate.StepKeepsInv` | app/services/db_load_gate.py:47-128 | Every step keeps: active counts the callers inside; the deque holds each unwoken waiter once, newest first; a waiter implies active, woken and lost wakeups reach the limit; fast entrants never exceed it. |
| `LoadGate.RunKeepsInv` | app/services/db_load_gate.py:47-128 | So does every run from the idle gate, for every limit including a switched-off gate. |
| `LoadGate.ActiveIsExact` | app/services/db_load_gate.py:71-75 | In every run active is exactly the number of callers inside, and the clamp at zero never fires. |
| `LoadGate.NewestIsWoken` | app/services/db_load_gate.py:62-75 | A release wakes the latest arrival still waiting, whenever anyone waits. |
| `LoadGate.EnabledExactly` | app/services/db_load_gate.py:83-128 | After any run: only a caller that waits unwoken can time out, only one that waits can be cut off, only a woken one resumes, and only one past the gate leaves. |
| `LoadGate.GiverUpIsGone` | app/services/db_load_gate.py:88-120 | A caller that gave up is gone from the callers and from the deque, nobody else is touched, and a wakeup is lost exactly when it had been woken. |
| `LoadGate.NeverStranded` | app/services/db_load_gate.py:47-128 | While fewer wakeups were lost than the limit, a waiter always has somebody inside or about to enter in front of it. |
| `LoadGate.StrandedIff` | app/services/db_load_gate.py:47-128 | Runs that lose at most a given number of wakeups never leave waiters with nobody inside or about to enter, if and only if that number is below the limit or the gate is off. |
| `LoadGate.OrderlyRunsAreCapped` | app/services/db_load_gate.py:47-128 | In runs where no newcomer arrives while a wakeup is outstanding, the limit is a hard cap. |
| `LoadGate.PromisedIffNoBarge` | app/services/db_load_gate.py:62-69 | For every run: callers inside and woken ones together stay within the limit at every moment if and only if no newcomer took a promised place. |
| `LoadGate.CappedIffNoFullResume` | app/services/db_load_gate.py:122-123 | For every run: the callers inside stay within the limit at every moment if and only if no woken caller resumes at a full gate. |
| `LoadGate.ExcessIsBarges` | app/services/db_load_gate.py:47-128 | In every run the excess over the limit is at most the number of newcomers that took a promised place. |
| `LoadGate.ExcessIsReached` | app/services/db_load_gate.py:122-128 | That bound is reached for every limit and every number of such newcomers. |
| `LoadGate.StrandedWaiter` | app/services/db_load_gate.py:99-120 | As many lost wakeups as the limit can leave a waiter in front of an empty gate. |
| `CompositeWalk.ListPage` | app/services/composite_items.py:179-218 | The loop over the members answers the page of the recursive walk. |
| `CompositeWalk.FitMeansExact` | app/services/composite_items.py:179-218 | When the cached counts fit, every page is the slice of the concatenated member lists. |
| `CompositeWalk.PagesExactIffCountsFit` | app/services/composite_items.py:179-218 | All pages are right if and only if each cached count is true, or too large with nothing listed after that member. |
| `CompositeWalk.FilteredListMisses` | app/services/composite_items.py:179-218 | A member whose list was filtered empty but whose cached count is one makes two consecutive pages show the same feature. |
| `CompositeWalk.CrawlSeesAll` | app/services/composite_items.py:179-218 | Following the pages from any offset shows the rest of the listing without gap, repeat or reordering. |
| `CompositeMerge.FormatThenParse` | app/services/composite_items.py:25-35 | A composite id gives its parts back if and only if neither is empty and the member id has no colon. |
| `Lexicographic.LessMeans` | app/services/composite_items.py:251-261 | Strings are compared by the first character in which they differ, a proper prefix being smaller. |
| `CompositeMerge.SortedIsStableSort` | app/services/composite_items.py:251-261 | The sort used here is a stable sort: in order, a permutation, equal keys in their old order, ascending and descending. |
| `CompositeMerge.SortIsMerge` | app/services/composite_items.py:246-261 | Sorting the members' sorted lists together is merging them. |
| `CompositeMerge.PrefixesSuffice` | app/services/composite_items.py:220-249 | The first k merged elements depend only on the first k elements of each list. |
| `CompositeMerge.MergedPage` | app/services/composite_items.py:220-265 | The page is cut from the sorted concatenation of every member's first features; it is in order of composite id, ascending or descending; and when the members list their features in that order and offset + limit stays within the item limit, the page stands at the offset in an arrangement of everything by composite id, and is short only when nothing comes after it. |
| `CompositeMerge.PrefixPageIsFullPage` | app/services/composite_items.py:220-265 | With at least offset + limit features from each member it is the page of sorting everything. |
| `CompositeMerge.PagesAgreeIff` | app/services/composite_items.py:220-265 | The page is right for all members, ascending and descending, if and only if the limit is zero or offset + limit stays within the item limit. |
| `CompositeMerge.PagesAreCutsIff` | app/services/composite_items.py:220-265 | In terms of composite ids only: for all members the page stands at the offset in an arrangement of everything in order if and only if the limit is zero or offset + limit stays within the item limit. |
| `CompositeMerge.FullPageIsCut` | app/services/composite_items.py:251-265 | Sorting everything and slicing gives the page at the offset in an arrangement of everything by composite id. |
| `KeysetStream.StreamRows` | app/crud/features.py:399-420 | For any batch size the stream yields the matching rows in key order, and ends. |
| `KeysetStream.StreamedExactly` | app/crud/features.py:390-420 | That is every matching row exactly once and nothing else. |
| `KeysetStream.StreamFeatures` | app/crud/features.py:348-388 | For any batch size the bounding-box stream yields the features of the distinct matching ids, and ends. |
| `KeysetStream.FeaturesExactly` | app/crud/features.py:325-388 | That is every id with a matching part once, ascending, with exactly all its parts in part order. |
| `KeysetStream.Grouped` | app/crud/features.py:374-376 | Grouping a query's rows gives each id its own rows in order. |
| `KeysetStream.PartsOfBatch` | app/crud/features.py:359-373 | Selecting a batch of ids first loses no part of any of them. |
| `KeysetStream.RowsAfterIsSuffix` | app/crud/features.py:403-420 | The condition on the last key selects exactly the rows not yet streamed. |

## Left out

- StoreOps.Store.Promote: deduplication before the promote does nothing here, because staging tables carry the primary key; it is proved on tables without one in `StagingDedupe`.
- CompositeMerge.PagesAgreeIff: compares strings by code point; a database collation that orders ids differently, and sorting by other keys than the id, are not modelled.
- KeysetStream.StreamRows: the table does not change during the stream.
- GreedyCover.GreedyCoverAoi: footprints are finite sets of unit cells; the spatial index is any choice of candidates that holds all overlapping ones, and Shapely geometry errors do not occur; the bounding-box test before each intersection, which skips only candidates that gain nothing, is not modelled.
- BboxTiling.SplitInitialSearchBboxes: coordinates are exact reals with half-even rounding, not doubles.
- PartitionBound.ParsePrinted: whitespace in the bound is ASCII, and the pattern's letters match in upper and lower case as the expression's flag says.
- Lock-timeout retries, advisory locks and the hashing of long partition names: a retry that gives up changes nothing, and names are a given function of the id.
- SQL text, HTTP, Redis queues, authentication, job-status messages, ages, TTLs and the watchdog: a queue may deliver a job any number of times, which is how they appear in `FinalizeProtocol`.
- Progress heartbeats and the reconciler's counters and messages.
- Which jobs the watchdog and the orphan staging cleanup choose: they may drop a staging table at any moment of a run; what such a drop does is in `FinalizeProtocol`.
- A load that is delivered again after it finished: it drops the staging table by name and fills a new one (app/services/bulk_staging.py:40-53); the runs start from a finished load.
- CopyCodec.RoundTrip: the decoder accepts the character with code zero, which PostgreSQL refuses in any text value.
- Batched deletes in app/services/bulk_import.py: the outer delete matches row positions across partitions.
- The composite path with counting on (app/services/composite_items.py:94-103) passes one keyword twice and raises; only the path without counting is modelled, and its total is not; nor is the lookup of listed feature ids.
- Process pools: the result of a parse task is a function of its lines, taken in the order of submission.
- Reading a source through fiona, subdivision of geometries, tile encoding, reprojection and polygon vectorising.
- The distributed planner, date windows, strips and swap options of the mosaic planner.
- Migrations, schemas, permissions, styles and pages.
