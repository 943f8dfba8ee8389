# ennx and bpann: verified core

This project models the algorithmic core of an epistemic-nearest-neighbour optimiser and of
the append-only store behind it, and proves what the parts promise each other. `dafny verify
dfyconfig.toml` checks all of it.

- **Selecting points.** `Pareto` says what non-dominated sorting means (iterated maxima; the
  number of a point's front is the length of its longest chain of dominators). `Acquisition`
  holds both algorithms, the counting one and the sort-and-sweep one for two objectives, and
  the selection of arms. `Hypervolume` relates the sweep to the number of covered lattice cells.
  `Scalarization` and `Morbo` hold the multi-objective trust region, `Candidates` the designs
  and perturbations.
- **The store.** `Disk` and `MmapStore` model a working directory as arrays of 64-bit words
  plus counters, with a ghost history of the states the files pass through: a crash may stop a
  process at each of them. A metadata or coverage file that is written is first empty, and that
  moment is in the history too. `Metadata` models the metadata text byte for byte and its two
  parsers. `IndexState` is the index bookkeeping as a state machine; `Backend` is the class on
  top of all of these.
- **Searching.** `Distance` holds the squared distance and its two loops. `Search` holds the bounded heap, the merge of two result legs and the split
  search, all against one ranking by (distance, id).
- **Incremental and fast forms.** `IncumbentTracker`, `Hash` with `SplitMix`, `Dense` with
  `Float32`, `Posterior`.
- **Writers and loops.** `Zip` and `Base64` with readers written from PKWARE's APPNOTE and
  RFC 4648, and `Stress` for the batching loops.
- **Shared.** `Sorting`, `Layout`, `Reals`, `Bytes`, `Wrappers`.

What a computation is supposed to mean is said a second time without the functions that specify it
wherever these could be wrong together with the code: the fronts, the distance, the nearest rows, the
tracked indices, weights and scores, header fields and words each have laws, a description in plain
numbers or an answer known from a standard that only one function meets.

Code that updates state in place is a class or a method with loops, proved against a
specification function; code made of expressions is functions and lemmas. Random draws,
floating-point operations, square roots, checksums, sign hashes and index searches are
parameters: the theorems hold for every choice of them within the stated ranges.

## What turned out not to hold

For each of these the model keeps the code's behaviour and the exact condition is proved.

- `Search.ExcludeNearestExactly`: leaving out the nearest row returns the other rows exactly when
  fewer rows are asked for than there are. Otherwise, with one stored row, that row itself comes back;
  with more, the result is filled up with the row (0, 0.0) that nobody found (`Search.PhantomRow`,
  with a two-row store in `Search.PhantomExample`).
- `Search.PendingLostExactly`, `Search.NoPendingLostExactly`: when the index misses rows and the nearest
  is to be left out, a pending row that belongs into the answer is lost exactly when it is the nearest of
  at least two candidates: the merge takes it for the row to leave out (`Search.PendingLostExample`).
  Without leaving out the nearest none is ever lost (`Search.PendingNeverLost`).
- `Disk.TruncationKeepsExactly`, `MmapStore.StepKeepsRowsExactly`: writing the metadata file begins by
  cutting it down to nothing, and that keeps every committed row visible exactly when the sidecar
  counter counts as many rows as the metadata did. What the sidecar counts survives always
  (`MmapStore.CountedRowsSurvive`). `Backend.TwoCrashesLoseRow` is a run that loses a row: opening with
  initial rows writes metadata before the counter, a crash in between leaves the counter behind, a
  second one during the next metadata write leaves nothing committed, and the third opening touches
  the page that holds the row.
- `Backend.BpannBackend.Reopen`: reopening works exactly when the metadata file is whole and the data
  files reach to the committed rows at the widths it records. The optimiser reopens wherever there is a
  metadata file and no row to add, so after a cut one it cannot open the directory at all, though every
  counted row is in it (`Backend.BpannBackend.OpenOrReopen`).
- `Backend.BpannBackend.OpenFound`, `Disk.OtherDimensions`: opening does not compare the dimensions it is
  given with those recorded. The stored rows are shown exactly when they are the same; narrower ones always
  open, and show the words cut into other rows.
- `Metadata.TornDimensions`: a metadata text cut in the middle gives both dimensions back exactly when it
  reaches to the last digit of the number of metrics; cut inside that number it gives a smaller one.
- `Backend.BpannBackend.AppendRows`: rows and index bookkeeping stay in step exactly when the
  variance table of the batch is acceptable; after a refused one the train rows are already in
  memory and in the files, neither committed nor accounted for, until the next successful append or
  rewrite of the index commits them (`Backend.RefusedVariance` is a run that gets there).
- `Backend.BpannBackend.AppendRows`, `Backend.BpannBackend.TrainRowsAt`: a variance table keeps one row
  for every observation exactly when every batch brings as many variances as rows, which appending does
  not check; rows past the end of a shorter table cannot be read back at all
  (`Backend.VarianceFallsBehind`). Reopening forgets the table.
- `IndexState.AppendLeavesFewPending`: fewer rows than the hard threshold are pending after every
  append exactly when that threshold is positive; both can be set to zero (`IndexState.ZeroThreshold`).
- `IndexState.PublishNeedsNoNewRows`: publishing a detached build keeps the accounts exactly when
  no row was appended since the build began (`IndexState.PublishLosesRow` is a run that loses one).
- `Backend.BpannBackend.SwitchScale` and `Backend.StaleExactly`: after a change of the input scale the
  resident cache is still right exactly when no stored row notices the change; nothing clears it
  (`Backend.StaleExample`).
- `Morbo.MorboTrustRegion.UpdateIncumbentOnly` and `Update`: the inner region's best value is the kept
  row's score exactly when observations were added, or there was a row before and the candidate did not
  win (`Morbo.WinsUnnoticed` is a run in which it is not). A restart forgets the best value but keeps the
  number of observations: the first row after it is kept without the inner region hearing of it, unless
  observations are added (`Morbo.RestartUnheard`), and fewer observations stay refused
  (`Morbo.FewerRowsRefused`). The next rescoring repairs the former.

## Model

| member | source | states |
|---|---|---|
| Pareto.DominanceIsStrictOrder | rust/crates/ennx/src/acquisition.rs:270-283 | the comparison used for domination is irreflexive and transitive for any number of objectives |
| Pareto.DominatesMeans | rust/crates/ennx/src/acquisition.rs:270-283 | for any number of objectives one row dominates another exactly when it is at least as good everywhere and the rows differ |
| Pareto.MaximaNonempty | rust/crates/ennx/src/acquisition.rs:311-324 | every non-empty set of points has an undominated one, so peeling never stalls |
| Pareto.FrontsPartition | rust/crates/ennx/src/acquisition.rs:311-326 | iterated maxima are non-empty, disjoint and together are all points |
| Pareto.FrontNumberIsLongestChain | rust/crates/ennx/src/acquisition.rs:311-326 | a point is in front number f exactly when its longest chain of dominators has length f |
| Pareto.FrontsAreLayered | rust/crates/ennx/src/acquisition.rs:311-326 | said of the numbers alone: fronts are not empty, every row is in one front, nothing beats a row of the first front, and every row of a later front is beaten by one of the front before and by none of its own or a later one |
| Pareto.LayeredIsUnique | rust/crates/ennx/src/acquisition.rs:311-326 | there is only one such list of fronts |
| Acquisition.CompareRows | rust/crates/ennx/src/acquisition.rs:270-283 | the early-exit comparison decides whether the first row is nowhere worse, and if so whether the rows differ |
| Acquisition.ClassifyPair | rust/crates/ennx/src/acquisition.rs:270-307 | for a pair of points the two flags say which of the two dominates the other |
| Acquisition.DominationTable | rust/crates/ennx/src/acquisition.rs:258-309 | after the pairwise loops every counter is the number of dominators and every list holds exactly the dominated points |
| Acquisition.Release | rust/crates/ennx/src/acquisition.rs:316-323 | decrementing keeps every counter equal to the number of dominators not yet peeled, so it never underflows |
| Acquisition.PeelFront | rust/crates/ennx/src/acquisition.rs:314-325 | one round turns the maxima of what is left into the maxima of what is left after them |
| Acquisition.NonDominSortGeneral | rust/crates/ennx/src/acquisition.rs:251-327 | the counting algorithm returns the iterated maxima, front by front, without repetition; an index is in the first front exactly when no different row is at least as good everywhere |
| Acquisition.SweepFront | rust/crates/ennx/src/acquisition.rs:351-370 | the sweep over points sorted by both objectives keeps exactly the undominated ones, duplicates and ties included |
| Acquisition.PeelOnce2d | rust/crates/ennx/src/acquisition.rs:341-376 | one round extracts the maxima of the remaining points and leaves exactly the others |
| Acquisition.NonDominSort2d | rust/crates/ennx/src/acquisition.rs:333-379 | the two-objective algorithm returns the iterated maxima, front by front |
| Acquisition.NonDominSort | rust/crates/ennx/src/acquisition.rs:251-379 | for any number of objectives the fronts that come back are layered: no row is beaten by one of its own or a later front, and every row behind the first front is beaten by one of the front before |
| Acquisition.SortsAgree | rust/crates/ennx/src/acquisition.rs:251-379 | for every two-column table both algorithms return the same fronts, as sets, front by front |
| Acquisition.TakeFromFronts | rust/crates/ennx/src/acquisition.rs:226-246 | a front is exhausted before the next is touched, for any shuffle |
| Acquisition.Select | rust/crates/ennx/src/acquisition.rs:189-248 | exactly min(arms, candidates) distinct indices come back, front by front, so no selected row is beaten by one that is left out; and each error has its cause |
| Hypervolume.StripSumIsMeasure | rust/crates/ennx/src/hypervolume.rs:97-113 | the strips summed so far are as many unit cells as the swept points cover to the right |
| Hypervolume.Sweep | rust/crates/ennx/src/hypervolume.rs:97-116 | over points sorted by the first objective the accumulated area is the number of covered cells |
| Hypervolume.Hypervolume2dMax | rust/crates/ennx/src/hypervolume.rs:51-117 | for every table the result is the number of unit cells above the reference point covered by some point, or the matching shape error |
| Hypervolume.MonotoneInPoints | rust/crates/ennx/src/hypervolume.rs:51-117 | more points never cover less |
| Hypervolume.PermutationInvariant | rust/crates/ennx/src/hypervolume.rs:51-117 | the order of the points does not matter |
| Hypervolume.AddedPointCounts | rust/crates/ennx/src/hypervolume.rs:51-117 | adding a point changes the measure exactly when it lies above the reference point and no point covers it already |
| Hypervolume.OneRow | rust/crates/ennx/src/hypervolume.rs:97-113 | the area of one row is the product of its distances from the reference point, or nothing |
| Hypervolume.InclusionExclusion | rust/crates/ennx/src/hypervolume.rs:97-113 | one more point adds its own box less what it shares with the points before, which leaves one measure only |
| Distance.ZeroExactly | rust/crates/bpann/src/distance.rs:26-48 | the squared distance is never negative, and zero exactly between equal rows |
| Distance.Symmetric | rust/crates/bpann/src/distance.rs:26-48 | both rows can be swapped |
| Distance.OneCoordinate | rust/crates/bpann/src/distance.rs:26-48 | on one coordinate it is the square of the difference |
| Distance.PartsAdd | rust/crates/bpann/src/distance.rs:26-48 | the distances of two parts add up, which with the square on one coordinate leaves one function only |
| Distance.DifferInOne | rust/crates/bpann/src/distance.rs:26-48 | rows that differ in one place are as far apart as that place |
| Distance.Stretched | rust/crates/bpann/src/distance.rs:26-48 | stretching both rows by a factor multiplies the distance by its square |
| Distance.L2SqF32 | rust/crates/bpann/src/distance.rs:26-48 | eight lanes over whole chunks and a tail one by one give the squared distance for every length |
| Distance.RowSqL2 | rust/crates/bpann/src/distance.rs:3-24 | the fold over a stored row, scaled or not and cut off at zero, gives the distance of the two rows as they are compared |
| Distance.ScalingUndone | rust/crates/bpann/src/distance.rs:50-61 | multiplying a compared row by the scale gives the row back; without scaling it is the row |
| Search.TopkFlatSqL2 | rust/crates/bpann/src/small_n_search.rs:37-74 | the bounded heap returns exactly the first min(k, n) rows by (distance, id), ties included, although it replaces only on strictly smaller distance: different rows with their distances, and none left out is nearer, or as near with a lower id |
| Search.ReplaceWorst | rust/crates/bpann/src/small_n_search.rs:51-64 | for a full heap and a later row, replacing the worst entry exactly on strictly smaller distance keeps the k best |
| Search.NearestRowsUnique | rust/crates/bpann/src/small_n_search.rs:37-74 | there is one list of k different rows, nearest first and lower id first among equals, from which nothing nearer is left out |
| Search.MergeTopkPrecomputedDist | rust/crates/bpann/src/merge.rs:46-72 | the merge ranks the first entry of every id and cuts it to the window asked for |
| Search.MergeTopkCandidates | rust/crates/bpann/src/merge.rs:7-44 | the rescoring merge gives the same window with recomputed distances and fails exactly when a candidate is not a row |
| Search.ScoreQueryFlat | rust/crates/bpann/src/small_n_search.rs:89-120 | a query against the resident matrix gets the answer of the full ranking, said of the distances alone as well |
| Search.LegsCoverRanking | rust/crates/bpann/src/large_n_search.rs:38-105 | exact tops of the two legs contain every entry of the window, for every split point |
| Search.MergeLegs | rust/crates/bpann/src/large_n_search.rs:64-105 | merging an exact indexed leg with the exact pending leg gives the answer of the full ranking, for both merge variants |
| Search.SearchLegs | rust/crates/bpann/src/large_n_search.rs:22-110 | for any index that lists different indexed rows with true distances the split search returns the window of the ranked candidates, filled up |
| Search.SearchIndexedAndPending | rust/crates/bpann/src/large_n_search.rs:22-110 | split search refines exhaustive search for every split point when the indexed leg is exact |
| Search.BothPathsAgree | rust/crates/bpann/src/backend.rs:335-400 | the resident path and the split path give the same answer, which lists the nearest rows and finds the query itself first if it is stored |
| Search.PlainAnswerUnique | rust/crates/bpann/src/backend.rs:346-353 | the answer of the ranking is the only list of rows that meets its description without a ranking, with and without the nearest |
| Search.NearestFindsItself | rust/crates/bpann/src/backend.rs:335-400 | a query that is a stored row is answered with distance zero and the lowest such row first |
| Search.LeavesItselfOut | rust/crates/bpann/src/backend.rs:346-351 | when the nearest is left out and fewer rows are asked for than there are, a query that is stored once gets only other rows, at positive distances |
| Search.ExcludeNearestExactly | rust/crates/bpann/src/backend.rs:346-351 | leaving out the nearest returns ranks two on exactly when fewer rows are asked for than exist |
| Search.PhantomRow | rust/crates/bpann/src/backend.rs:346-353 | when at least as many rows are asked for as exist, the answer always holds a row that is not one of the others |
| Search.PhantomExample | rust/crates/bpann/src/backend.rs:346-353 | two rows, two results without the nearest: the row that was left out comes back at distance zero |
| Search.FewerRivals | rust/crates/bpann/src/large_n_search.rs:38-62 | a row ranked within k overall is ranked within k in any part of the rows it belongs to, so a leg of size k cannot miss it |
| Search.PendingNeverLost | rust/crates/bpann/src/large_n_search.rs:38-105 | without leaving out the nearest, whatever different indexed rows with true distances the indexed leg lists, a pending row of the true answer is in the answer |
| Search.PendingLostExactly | rust/crates/bpann/src/merge.rs:57-66 | when the nearest is left out, a pending row of the true answer is lost exactly when no candidate is nearer and there are others |
| Search.NoPendingLostExactly | rust/crates/bpann/src/merge.rs:57-66 | none is lost exactly when there is one candidate, or the nearest row is among them, or the nearest candidate is no pending row of the true answer |
| Search.PendingLostExample | rust/crates/bpann/src/large_n_search.rs:38-105 | three rows, one indexed and missed: the answer is row 1, and row 2 comes back |
| Disk.UncommittedWordsDoNotMatter | rust/crates/bpann/src/observation.rs:53-73 | words behind the committed rows never show in what a reopened store sees |
| Disk.RaisingCountIsSafe | rust/crates/bpann/src/observation.rs:111-114 | raising the committed count keeps a directory openable exactly when the files already hold that many rows |
| Disk.CommittedIsLargest | rust/crates/bpann/src/observation.rs:53-73 | the committed count is the largest that is recorded, in the sidecar or in the metadata, or zero |
| Disk.TruncationKeepsExactly | rust/crates/bpann/src/observation.rs:140-153 | a metadata file cut to nothing leaves the rows the sidecar counts, and hides rows exactly when the metadata counted more |
| Disk.OtherDimensions | rust/crates/bpann/src/mmap_store.rs:67-82 | rows of other widths are found if they are no wider, and show the committed words exactly when the widths are the same or nothing is committed |
| MmapStore.StepKeepsRowsExactly | rust/crates/bpann/src/observation.rs:140-153 | one recorded file change keeps every committed row exactly when it does not cut a metadata file that counts more rows than the sidecar |
| MmapStore.CommittedRowsSurvive | rust/crates/bpann/src/mmap_store.rs:105-144 | between two moments of a history without such a cut the later one shows every row the earlier one had committed, unchanged |
| MmapStore.CountedRowsSurvive | rust/crates/bpann/src/observation.rs:81-114 | the rows the sidecar counts at one moment are shown, unchanged, at every later one, whatever is cut in between |
| MmapStore.DimensionsStay | rust/crates/bpann/src/observation.rs:140-153 | a run that finds its own dimensions recorded, or none, never records others |
| MmapStore.WorkDir.Truncate | rust/crates/bpann/src/observation.rs:140-153 | the moment between opening the metadata file for writing and writing it: the visible rows stay exactly when the sidecar counts them |
| MmapStore.WorkDir.Put | rust/crates/bpann/src/observation.rs:75-79 | a file change that keeps committed rows and does not lower the sidecar extends a safe history |
| MmapStore.MmapColumnStore.OpenOrCreate | rust/crates/bpann/src/mmap_store.rs:45-91 | opening fails exactly when the told row count exceeds the file, and otherwise leaves every word as it was |
| MmapStore.MmapColumnStore.EnsureCapacity | rust/crates/bpann/src/mmap_store.rs:27-43 | a file that reaches far enough stays; otherwise it gets the rows needed but at least 64, as zeros, behind the words it had |
| MmapStore.MmapColumnStore.Pretouch | rust/crates/bpann/src/mmap_store.rs:95-103 | exactly the first word of every page loses its low byte, so touching is only callable on a store without rows |
| MmapStore.TouchedBytes | rust/crates/bpann/src/mmap_store.rs:95-103 | in bytes: every 4096th one is zero afterwards and all others are what they were |
| MmapStore.MmapColumnStore.Append | rust/crates/bpann/src/mmap_store.rs:105-144 | the stored words are the old ones followed by the rows in order; a wrong width changes nothing |
| MmapStore.MmapColumnStore.RowSlice | rust/crates/bpann/src/mmap_store.rs:162-175 | row i of the rows that were appended, or an error exactly past the last row |
| MmapStore.MmapColumnStore.Gather | rust/crates/bpann/src/mmap_store.rs:177-186 | the rows at the given indices in that order, or an error exactly when one is out of range |
| MmapStore.ReadsBack | rust/crates/bpann/src/mmap_store.rs:105-175 | what was appended as row i is read back as row i |
| MmapStore.CopiedRows | rust/crates/bpann/src/mmap_store.rs:117-141 | copying rows behind the existing ones leaves every committed word in place |
| IndexState.StepKeepsAccounts | rust/crates/bpann/src/backend.rs:196-323 | every operation keeps pending + indexed = length and hard at least soft |
| IndexState.RunsStayAccounted | rust/crates/bpann/src/backend.rs:222-323 | so does every run in which publishing waits for a flush |
| IndexState.AppendLeavesFewPending | rust/crates/bpann/src/backend.rs:246-262 | after an append fewer rows are pending than the hard threshold exactly when that is positive, and fewer than the soft one when not deferred |
| IndexState.AppendFlushesExactly | rust/crates/bpann/src/backend.rs:246-262 | an append indexes everything exactly when the pending rows reach the hard threshold, or the soft one when indexing is not deferred; otherwise its rows join the pending ones |
| IndexState.PublishNeedsNoNewRows | rust/crates/bpann/src/backend.rs:503-506 | publishing keeps the accounts exactly when the build covers every row |
| IndexState.PublishLosesRow | rust/crates/bpann/src/backend.rs:484-506 | append, build, append, publish leaves a row neither indexed nor pending |
| IndexState.HardStaysPositive | rust/crates/bpann/src/backend.rs:453-481 | the hard threshold stays positive over every run unless the soft threshold is set to zero |
| Backend.BpannBackend.EnsureIndexSync | rust/crates/bpann/src/backend.rs:271-291 | afterwards nothing is pending; where the index was behind, the coverage on disk becomes all rows, otherwise the file stays as it was found |
| Backend.BpannBackend.ResetIndex | rust/crates/bpann/src/backend.rs:196-200 | a reset forgets coverage without touching rows or committed count |
| Backend.BpannBackend.WriteMetadata | rust/crates/bpann/src/observation.rs:140-153 | the file is cut and then written; nothing committed is lost at the end, and what is seen in between is the old rows or the new exactly when the sidecar counts all the old ones |
| Backend.BpannBackend.PersistIndexToDisk | rust/crates/bpann/src/backend.rs:302-323 | the index covers all rows afterwards; the rewrite is atomic exactly when there is nothing to rewrite or the sidecar counts all committed rows, and invisible when it counts every row |
| Backend.BpannBackend.OpenYvar | rust/crates/bpann/src/observation.rs:155-171 | the variance table given on opening: accepted exactly when its file reaches to the committed rows and, where it is filled, the width fits; what it holds then |
| Backend.BpannBackend.Open | rust/crates/bpann/src/backend.rs:40-136 | on a sound directory opening fails only for too many dimensions or an unacceptable variance table; it shows exactly the committed rows or the initial ones, indexed as far as the coverage file says, or without it the metadata, with the rest pending; it is atomic exactly when the sidecar counts all committed rows, and ends through three named moments |
| Backend.BpannBackend.OpenFound | rust/crates/bpann/src/backend.rs:40-76 | opening with the dimensions of given tables: fails where the files do not reach to the committed rows at these widths, and shows the stored rows exactly when the dimensions are theirs |
| Backend.BpannBackend.Reopen | rust/crates/bpann/src/backend.rs:432-449 | reopening succeeds exactly when the metadata file is whole and the files reach to its rows, takes shape and scaling from it and shows the committed rows without a variance table |
| Backend.BpannBackend.OpenOrReopen | rust/crates/ennx/src/disk_bpann/enn_backend.rs:38-59 | without rows to add a whole metadata file decides the dimensions and a cut one makes opening fail; otherwise the given tables decide |
| Backend.PendingAfterReopen | rust/crates/bpann/src/backend.rs:222-262 | a run: with the index in step and recorded, a batch below the thresholds is appended, the process stops, and the next one finds exactly the rows of the batch pending |
| Backend.BpannBackend.RecoverAfterCrash | rust/crates/bpann/src/backend.rs:47-136 | stopped at any moment of its history, a directory opens with exactly the rows committed then; these include all the sidecar ever counted, and all ever committed if no unsettled metadata file was cut |
| Backend.BpannBackend.ReopenAfterCrash | rust/crates/bpann/src/backend.rs:432-449 | through the recorded dimensions the same rows come back at every moment at which the metadata file is whole |
| Backend.TwoCrashesLoseRow | rust/crates/bpann/src/backend.rs:126-134 | a crash between metadata and counter and another in the next metadata write leave a committed row uncommitted and its page touched |
| Backend.BpannBackend.AppendRows | rust/crates/bpann/src/backend.rs:222-269 | a batch becomes visible in one step; state, accounts, variance table, cache and errors in every case, with the exact conditions under which the accounts stay right and the table aligned |
| Backend.RefusedVariance | rust/crates/bpann/src/backend.rs:238-250 | a run in which a refused variance table leaves a row stored, uncommitted and unaccounted for |
| Backend.VarianceFallsBehind | rust/crates/bpann/src/observation.rs:173-194 | a run in which a batch without variances leaves a committed row that cannot be read back |
| Backend.BpannBackend.AppendYvarOnAdd | rust/crates/bpann/src/observation.rs:173-194 | accepted variances follow the words of the table or of the committed rows, refused or missing ones change nothing |
| Backend.BpannBackend.CommitRows | rust/crates/bpann/src/backend.rs:246-262 | the counter write is the one step that commits, followed by the flush the thresholds require |
| Backend.BpannBackend.CreateYvar | rust/crates/bpann/src/observation.rs:181-188 | a late variance table is accepted exactly under the condition its file and width allow, and its rows are stored behind the committed ones |
| Backend.BpannBackend.TrainRowsAt | rust/crates/bpann/src/observation.rs:196-215 | the rows at the given indices in that order; which indices fail, and that an aligned variance table adds no failure |
| Backend.BpannBackend.SoftSyncBuild | rust/crates/bpann/src/backend.rs:484-500 | a detached build leaves the live state alone and covers all rows of its start |
| Backend.BpannBackend.SoftSyncPublish | rust/crates/bpann/src/backend.rs:503-506 | publishing is the corresponding step of the state machine |
| Backend.BpannBackend.LoadOrBuildSmallNCache | rust/crates/bpann/src/small_n_search.rs:122-147 | the returned matrix is that of the current rows whenever the cache was fresh before |
| Backend.BpannBackend.SearchBatch | rust/crates/bpann/src/backend.rs:335-400 | every query of a batch gets the answer of the ranking over the current rows, on both paths, from one matrix: the nearest rows and their distances, and a query that is a stored row finds the lowest such row first at distance zero, scaled or not |
| Backend.BpannBackend.EnsureIndexSyncWithScale | rust/crates/bpann/src/backend.rs:183-194 | what a change of scale resets and what it leaves behind |
| Backend.BpannBackend.SwitchScale | rust/crates/bpann/src/backend.rs:183-194 | afterwards the cache is fresh exactly when no row notices the new scale |
| Backend.StaleExactly | rust/crates/bpann/src/backend.rs:183-194 | two scalings give the same matrix exactly when every stored row is unchanged by the switch |
| Backend.StaleExample | rust/crates/bpann/src/backend.rs:183-194 | one stored value whose matrix differs after a change of scale |
| Metadata.NumbersReadBack | rust/crates/bpann/src/observation.rs:140-153 | all four numbers of the printed text are parsed back, for every value below 2^64 |
| Metadata.BackendReadsBack | rust/crates/bpann/src/observation.rs:228-232 | the index kind is parsed back from the printed text |
| Metadata.ScalingReadsBack | rust/crates/bpann/src/backend.rs:440 | the scaling flag is seen on reopening exactly when it was printed as true |
| Metadata.AfterJoin | rust/crates/bpann/src/observation.rs:218-226 | in a text cut at its quotation marks the first occurrence of a quoted key is that of the first equal run followed by the right characters |
| Metadata.ValueOfDecimal | rust/crates/bpann/src/observation.rs:218-226 | decimal parsing inverts decimal printing |
| Metadata.TornTextNeverOvercounts | rust/crates/bpann/src/observation.rs:53-73 | any prefix of the text that reached the disk yields no row count or one that is not too large |
| Metadata.TornTextCommits | rust/crates/bpann/src/observation.rs:53-73 | with any prefix of its metadata text a directory counts at least what the sidecar does and at most what the whole text would make it, and all of that if the sidecar does |
| Metadata.TornDimensions | rust/crates/bpann/src/backend.rs:436-439 | a prefix gives both dimensions back exactly when it holds the number of metrics to its last digit; only that number can be misread, and then as a smaller one |
| Metadata.FilesReadBack | rust/crates/bpann/src/observation.rs:53-73 | the counts and dimensions the model gives a metadata file are those its text parses to |
| Metadata.SidecarReadsBack | rust/crates/bpann/src/observation.rs:116-130 | an eight-byte sidecar is read back as the number written |
| IncumbentTracker.IncrementalIncumbentTracker.Tell | rust/crates/ennx/src/incumbent_tracker.rs:49-73 | the summary stays that of the whole history |
| IncumbentTracker.IncrementalIncumbentTracker.PushTopM | rust/crates/ennx/src/incumbent_tracker.rs:128-132 | inserting and truncating keeps exactly the entries with fewer than m larger ones, or as large ones with a smaller index, before them; so entries once dropped never matter again |
| IncumbentTracker.TopIsFewAhead | rust/crates/ennx/src/incumbent_tracker.rs:128-132 | an entry is among the best m exactly when fewer than m are larger, or as large with a smaller index |
| IncumbentTracker.IncrementalIncumbentTracker.Ask | rust/crates/ennx/src/incumbent_tracker.rs:75-99 | per mode: all indices; those of the largest value; those that fewer than m observations beat, larger or as large with a smaller index; or those that fewer than m beat under some metric. In ascending order, as many as there should be, whoever is kept beating whoever is not, and empty exactly when nothing was told |
| IncumbentTracker.IncrementalIncumbentTracker.Reset | rust/crates/ennx/src/incumbent_tracker.rs:105-115 | a reset tracker is a fresh one |
| IncumbentTracker.IncrementalIncumbentTracker.Rebuild | rust/crates/ennx/src/incumbent_tracker.rs:117-126 | rebuilding equals a fresh tracker told all rows in order |
| IncumbentTracker.ArgMaxNext | rust/crates/ennx/src/incumbent_tracker.rs:52-62 | the argmax set after one more value: extended on a tie, replaced by a larger one, kept otherwise |
| IncumbentTracker.InUnionUpTo | rust/crates/ennx/src/incumbent_tracker.rs:88-98 | an index is in the union exactly when some metric ranks it among its first m |
| SplitMix.SplitMixIsBijective | rust/crates/ennx/src/hash.rs:45-51 | the mixing step permutes the 64-bit words: an explicit inverse undoes it from both sides |
| SplitMix.XorShiftUndone | rust/crates/ennx/src/hash.rs:48-50 | the exclusive or with a shifted copy is undone by two more shifts, in both orders |
| SplitMix.ShrDivides | rust/crates/ennx/src/hash.rs:48-50 | a shift by k divides by two to the k |
| Hash.StreamsNeverMeet | rust/crates/ennx/src/hash.rs:68-75 | within one seed different indices and metrics are drawn from different mixed words, within the stated spans |
| Hash.WrapsEverywhere | rust/crates/ennx/src/hash.rs:69-73 | wrapping around at every operation gives the same word |
| Hash.SameWordExactly | rust/crates/ennx/src/hash.rs:69-73 | two draws share their first word exactly when the weighted differences of seeds, indices and metrics add up to a multiple of 2^64 |
| Hash.SeedsNeverMeet | rust/crates/ennx/src/hash.rs:69-73 | draws of different seeds come from different mixed words, within the stated spans |
| Hash.SecondWords | rust/crates/ennx/src/hash.rs:75-76 | the second word of a draw never mixes to the same as the first, and differs between draws whose first words differ |
| Hash.UniqueIndexInverse | rust/crates/ennx/src/hash.rs:84-106 | the unique indices increase, are those given, and the inverse finds every given index among them |
| Hash.FillCache | rust/crates/ennx/src/hash.rs:149-155 | nothing an earlier seed left in the reused cache survives |
| Hash.CopyRows | rust/crates/ennx/src/hash.rs:156-161 | every index gets the cached row of its own value, wherever that is cached |
| Hash.BatchMultiSeed | rust/crates/ennx/src/hash.rs:129-170 | the cell at [s, d, m] of the flat result is the single draw of seed s, index d and metric m |
| Float32.NextFiniteIsAdjacent | rust/crates/ennx/src/dense.rs:366-385 | the step from a finite float is finite, different and exactly the next float in the asked direction, except one step inward at the largest magnitude |
| Float32.PlacesAreTaken | rust/crates/ennx/src/dense.rs:366-385 | every place between the infinities belongs to a float, to one only apart from the two zeros, so neighbouring places are neighbouring floats |
| Float32.PlacesOrderValues | rust/crates/ennx/src/dense.rs:366-385 | finite floats compare, and are equal, as the numbers their exponents and fractions stand for |
| Float32.NextFiniteIsNext | rust/crates/ennx/src/dense.rs:366-385 | in those numbers the step goes the asked way, except at the largest magnitude, and no float lies between |
| Dense.ValidateLeaves | rust/crates/ennx/src/dense.rs:172-199 | succeeds exactly when the leaves tile the parameters without gap, overlap or overflow and are themselves good |
| Dense.ExactlyOneLeaf | rust/crates/ennx/src/dense.rs:172-199 | validated leaves put every parameter into exactly one leaf |
| Dense.MovedChanges | rust/crates/ennx/src/dense.rs:341-350 | for any addition and multiplication a produced value is finite and different from its base |
| Dense.StrongestTermDecides | rust/crates/ennx/src/dense.rs:329-340 | when the move does not show, the step goes the way the strongest term pushes, the first of equals |
| Dense.HiddenMoveSteps | rust/crates/ennx/src/dense.rs:334-343 | a move that does not show becomes one step, upwards exactly when coefficient and sign of the strongest term are both positive or neither is |
| Dense.MovesByScaledSum | rust/crates/ennx/src/dense.rs:327-345 | where nothing rounds, a parameter moves by the scale of its leaf times the sum of the signed coefficients |
| Dense.Reference | rust/crates/ennx/src/dense.rs:320-354 | fails exactly when some parameter overflows; otherwise every leaf holds its new values, each written once |
| Dense.EveryParameterMoves | rust/crates/ennx/src/dense.rs:320-354 | every written parameter is finite and numerically different from its base |
| Dense.HasDirectionExactly | rust/crates/ennx/src/dense.rs:228-243 | looking at first occurrences finds a direction exactly when the terms do not cancel for every seed |
| Dense.Apply | rust/crates/ennx/src/dense.rs:77-148 | on the CPU a returned result changes every parameter, and the complaint that only some changed is never made |
| Dense.Dist2 | rust/crates/ennx/src/dense.rs:150-155 | accepts exactly valid leaves and finite terms and returns the distance of the two directions |
| Dense.DistanceOfOne | rust/crates/ennx/src/dense.rs:302-318 | one leaf and one seed: length times squared scale times squared difference of the coefficients |
| Dense.EnergyAdds | rust/crates/ennx/src/dense.rs:302-306 | the energies of two lists of leaves add up |
| Dense.AnyListing | rust/crates/ennx/src/dense.rs:302-318 | any duplicate-free list with at least the seeds in use gives the same distance |
| Dense.DistanceSymmetric | rust/crates/ennx/src/dense.rs:302-318 | the distance does not depend on which side is which |
| Dense.DistanceZeroExactly | rust/crates/ennx/src/dense.rs:302-318 | with any energy the distance is zero exactly when the summed coefficients agree for every seed |
| Dense.DistanceInvariant | rust/crates/ennx/src/dense.rs:302-318 | adding the same terms to both sides changes nothing |
| Dense.Tiles | rust/crates/ennx/src/dense.rs:209-226 | walking the tiles visits every element of every leaf once, in order, in pieces of at most 65536; fails exactly past 32 bits |
| Dense.LeafCellAt | rust/crates/ennx/src/dense.rs:209-226 | element j of leaf i is visited behind all the elements of the leaves before |
| Posterior.ComputeWeightedStats | rust/crates/ennx/src/posterior.rs:492-553 | every cell holds the statistics of its own query's neighbours under its own metric's scale, or those of no neighbours |
| Posterior.CellStats | rust/crates/ennx/src/posterior.rs:442-487 | the three accumulating loops compute the inverse-variance mean, norm and variances |
| Posterior.StatsAreSane | rust/crates/ennx/src/posterior.rs:417-490 | weights sum to one, a neighbour no farther and no noisier than another weighs no less, the mean stays among the neighbours, the squared norm stays between 1/k and 1, squared errors add up and respect the floor |
| Posterior.WeightsSumToOne | rust/crates/ennx/src/posterior.rs:444-456 | the normalised weights are positive and sum to one |
| Posterior.VarTotalIs | rust/crates/ennx/src/posterior.rs:526-534 | a neighbour's variance: the floor, epistemic scale times distance, the common noise, and its own noise over the squared output scale where variances were observed |
| Posterior.CellWeightsAreInverse | rust/crates/ennx/src/posterior.rs:517-537 | in every cell weight times variance, read from the tables alone, is the same for all neighbours |
| Posterior.NearerWeighsMore | rust/crates/ennx/src/posterior.rs:526-537 | a neighbour no farther and no noisier weighs no less, and more when it is nearer or quieter and that counts |
| Posterior.NeighborIsOwn | rust/crates/ennx/src/posterior.rs:519-534 | every neighbour is read from its own query's part of the tables |
| Posterior.MeanWithinNeighbors | rust/crates/ennx/src/posterior.rs:451-456 | the mean lies between the least and the greatest neighbour value |
| Posterior.DotIsLinear | rust/crates/ennx/src/posterior.rs:451-456 | a weighted sum is linear in the values |
| Posterior.DotOfOne | rust/crates/ennx/src/posterior.rs:451-456 | and a value that stands alone counts with its own weight |
| Posterior.WeightNormRange | rust/crates/ennx/src/posterior.rs:451-458 | the squared norm of the weights lies between one over their number and one |
| Posterior.EpistemicVarRange | rust/crates/ennx/src/posterior.rs:461 | the combined variance is at least the floor over the number of neighbours and at most that of any single one |
| Posterior.AnotherNeighborHelps | rust/crates/ennx/src/posterior.rs:461 | one more neighbour strictly lowers the combined variance |
| Posterior.ErrorsAddInSquares | rust/crates/ennx/src/posterior.rs:25-40 | the squared total error is the sum of the squared parts on both sides of the floor, and never below it; above it the parts belong to their own variances, below it there is no aleatoric part |
| Posterior.AleatoricRange | rust/crates/ennx/src/posterior.rs:465-480 | the aleatoric variance lies between the least and the greatest noise of the neighbours, and is zero when noise was not asked for |
| Scalarization.ScalarizeWithRanges | rust/crates/ennx/src/morbo_trust_region.rs:397-437 | every row gets the least of its weighted places in the ranges plus alpha times their sum, said without the functions that compute it, and a table of the wrong shape an error |
| Scalarization.ScoreMonotone | rust/crates/ennx/src/morbo_trust_region.rs:415-435 | at least as good in every metric means at least as good a score, clipped or not |
| Scalarization.EveryMetricCounts | rust/crates/ennx/src/morbo_trust_region.rs:415-435 | with alpha positive a larger value in any one metric makes an unclipped score larger |
| Scalarization.ScoreRange | rust/crates/ennx/src/morbo_trust_region.rs:415-435 | a clipped score lies between zero and 1/metrics + alpha, ranges without extent included |
| Morbo.DirichletWeights | rust/crates/ennx/src/morbo_trust_region.rs:385-395 | every weight is its sample's share of the sum, so weights are positive and sum to one |
| Morbo.RangesAreUnique | rust/crates/ennx/src/morbo_trust_region.rs:162-197 | rows determine their ranges, so however they were gathered the ranges are the same |
| Morbo.MorboTrustRegion.UpdateRangesIncremental | rust/crates/ennx/src/morbo_trust_region.rs:162-197 | after any batching the ranges are those of all rows seen |
| Morbo.MorboTrustRegion.Restart | rust/crates/ennx/src/morbo_trust_region.rs:119-129 | ranges, incumbent and best value are forgotten, the number of observations is kept |
| Morbo.MorboTrustRegion.Update | rust/crates/ennx/src/morbo_trust_region.rs:293-382 | ranges of all observations, the better of incumbent and candidate under them, observation count and best value of the inner region, exactly when it agrees, and every error without side effect |
| Morbo.MorboTrustRegion.UpdateIncumbentOnly | rust/crates/ennx/src/morbo_trust_region.rs:199-265 | the same challenge under unchanged ranges, the inner region's count and best value, exactly when it agrees afterwards, and what an error leaves behind |
| Morbo.WinsUnnoticed | rust/crates/ennx/src/morbo_trust_region.rs:240-264 | a run in which the candidate is kept and the inner region stays at the old score |
| Morbo.RestartUnheard | rust/crates/ennx/src/trust_region.rs:407-418 | a run in which the row kept after a restart leaves the inner region without a best value |
| Morbo.FewerRowsRefused | rust/crates/ennx/src/morbo_trust_region.rs:313-326 | five rows, none, one: the last update is refused |
| Morbo.MorboTrustRegion.Challenge | rust/crates/ennx/src/morbo_trust_region.rs:240-264 | the greater score stays, the old row on a tie, and when the inner region agrees with it |
| Morbo.MorboTrustRegion.AgreesMeans | rust/crates/ennx/src/morbo_trust_region.rs:240-264 | agreeing means that the inner best value is the augmented minimum of the kept row's places in the ranges of now |
| Morbo.MorboTrustRegion.RescalarizeIncumbent | rust/crates/ennx/src/morbo_trust_region.rs:267-291 | under new weights the inner region compares against the incumbent's new score |
| Candidates.FisherYates | rust/crates/ennx/src/candidates.rs:286-291 | for every sequence of choices the result holds every number once |
| Candidates.EveryOrderReachable | rust/crates/ennx/src/candidates.rs:286-291 | every order comes from some sequence of choices |
| Candidates.ChoicesAreDetermined | rust/crates/ennx/src/candidates.rs:286-291 | two sequences of choices with the same result are the same, so orders are as likely as each other |
| Candidates.GenerateLhd | rust/crates/ennx/src/candidates.rs:272-304 | every column is a Latin column of the unit interval stretched over its bounds: one sample per stratum if they have an extent, constant if they have none; the shuffle says in which stratum a sample lies and its offset how far into it |
| Candidates.StrataDisjoint | rust/crates/ennx/src/candidates.rs:293-300 | no point lies in two strata |
| Candidates.RaaspDimFromCdf | rust/crates/ennx/src/candidates.rs:137-149 | the binary search returns a dimension whose share holds the draw; with ascending probabilities that is the least one reaching it, or the last |
| Candidates.DrawnExactly | rust/crates/ennx/src/candidates.rs:137-149 | a dimension is drawn exactly when the draw falls into its share |
| Candidates.ShareIsLength | rust/crates/ennx/src/candidates.rs:163-183 | a draw falls into a dimension's share of the cumulative probabilities exactly when its part of the whole falls into that dimension's length, with equal lengths if none are given or they do not add up to a positive number |
| Candidates.GenerateRaasp | rust/crates/ennx/src/candidates.rs:152-197 | every candidate differs from the centre in at most max(perturbations, 1) coordinates, and those lie within the bounds; every probe touches the dimension whose share of the lengthscales it falls into, and a touched coordinate holds what its last touch drew |
| Candidates.ThereAndBackExactly | rust/crates/ennx/src/candidates.rs:34-69 | mapping to the unit cube and back is the identity within the bounds, and outside exactly where the dimension has extent |
| Candidates.UnitIsStretched | rust/crates/ennx/src/candidates.rs:34-69 | the ends of the unit interval go to the bounds and back, and equal steps to equal steps |
| Zip.Zip | buck2/wheel/pack.rs:167-219 | the bytes are the archive of the entries, and a reader that holds local headers against the directory recovers the entries from them exactly when every field fits |
| Zip.RoundTrip | buck2/wheel/pack.rs:167-219 | end record, central directory and local headers lead back to exactly the entries in order, if and only if counts, names and sizes fit their fields; the reader refuses stored files of two sizes and local headers whose checksum or sizes differ from the directory's |
| Zip.LocalFields | buck2/wheel/pack.rs:174-184 | every field of a local header, read at its place: version, flags, method, time, date, checksum, both sizes, name and extra length |
| Zip.CentralFields | buck2/wheel/pack.rs:188-204 | every field of a central record, offset and attributes included |
| Zip.EndFields | buck2/wheel/pack.rs:210-217 | every field of the end record |
| Zip.ReadsFrom | buck2/wheel/pack.rs:192-209 | walking the directory from any record on finds the remaining entries |
| Bytes.ReadsBack | buck2/wheel/pack.rs:159-165 | a little-endian field is read back as the number modulo its range, for any width |
| Bytes.LowByteFirst | buck2/wheel/pack.rs:159-165 | byte k of a field is digit k of the number to base 256, low byte first |
| Base64.Base64Url | buck2/wheel/pack.rs:140-157 | the text of any byte string decodes to it, for all three length residues |
| Base64.DecodesBack | buck2/wheel/pack.rs:140-157 | the strict decoder inverts the encoder on every input |
| Base64.EncodesBack | buck2/wheel/pack.rs:140-157 | the decoder accepts nothing but encodings |
| Base64.TestVectors | buck2/wheel/pack.rs:141 | the first texts of section 10 of RFC 4648, and both characters of the URL-safe alphabet |
| Stress.ObservationBatches | ops/stress.py:295-325 | batches are never empty or too large, add up to all rows, land on every stop point in range, and a short one ends on a stop or at the end |
| Stress.AskStops | ops/stress.py:991-1019 | there is always room for the next stop and the stops strictly increase inside the range, for any ideal values; with ideals from 1 to the number of observations they begin and end there |
| Stress.LastStopExactly | ops/stress.py:1004-1016 | the last stop is the number of observations exactly when some ideal stop reaches the ceiling of its place, or every observation is a stop |
| Stress.IdealStopsStay | ops/stress.py:1004-1012 | ideal stops that already increase and leave room are not moved |
| Stress.StepsThroughCheckpoints | ops/stress.py:214-221 | the step rule walks exactly through one and three times the powers of ten |
| Stress.CheckpointNs | ops/stress.py:224-233 | exactly the checkpoint sizes up to the maximum are returned |

## Left out

- Floating-point rounding, NaN, infinities and signed zeros outside `Float32` and `Dense`: objectives, distances and statistics are integers or reals, so the difference between the 32-bit resident distances and the 64-bit split-search distances is not modelled.
- The index itself (trees, edges, compaction, recall): it is a row range that is covered, an exact leg where a theorem says so, and any list of different indexed rows with true distances in `Search.SearchLegs` and the theorems on pending rows.
- Bytes of the data files: a file is an array of 64-bit words, and touching a page clears the low byte of a word.
- Backend.BpannBackend.Open: index files cut short, on which the source's opening fails, are not modelled; the index files are a row count that is there or not.
- Initial tables with different numbers of rows, where nothing is committed yet: the source stores both and counts the rows of the inputs; wherever they are not stored they are modelled.
- A metadata text cut in the middle is not a recorded moment: what it gives back is in `Metadata.TornTextCommits` and `Metadata.TornDimensions`.
- I/O errors, flush ordering, page residency and the check of the recorded index kind when opening.
- The difference between contiguous and strided row copies: both are the same copy here.
- The single-objective branch of arm selection and the other acquisition kinds, which delegate to modules that are not part of this model.
- `Search.SearchIndexedAndPending`: parallel queries are modelled one by one, and reading rows is a function of their number.
- `Hash.BatchMultiSeed`: the source splits its buffer by row length and stops the program when there are no indices, so at least one index is required.
- `Hash.StreamsNeverMeet`: speaks of the first of the two words behind a draw, and `Hash.SecondWords` of the second; uniform and normal shaping (53-bit conversion, Box-Muller) is part of the draw parameter.
- `Dense.Apply`: device backends and the foreign CPU routine are not modelled; the hashed sign is a parameter; seeds' coefficients are summed exactly.
- `Posterior.ComputeWeightedStats`: requires non-negative distances and variances and positive output scales; the infinite errors without neighbours are a case of their own.
- `Morbo.MorboTrustRegion.Challenge`: of the inner region only best value and observation count are modelled, not success counters and length.
- `Candidates.GenerateRaasp`: lower bounds lie below upper ones, without which the source's uniform draw stops the program; Sobol sequences are not modelled.
- `Zip.Zip`: entries come as a list in the key order of the source's map, the checksum is any function of the data.
- `Stress.AskStops`: the ideal stops are any whole numbers; the logarithmic spacing behind them is a parameter.
- A comment in the tuning module describes the hard flush threshold as four times the soft one; the constants are 250 and 3000, and the model follows the constants.
- Python facades, bindings, configuration loading, command lines and build steps other than the archive and the digest text, which are thin wrappers.
