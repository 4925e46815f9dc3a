# Verification model of the patchman engine

The engine receives package reports of systems, evaluates which advisories and package updates apply
to them, stores the result per system and keeps counts per account. This project models that
evaluation pipeline and the event plumbing that feeds it, and proves properties of the model with Dafny.

Check everything with `dafny verify dfyconfig.toml`.

## What is modelled

- **Package identities** (`Text`, `Rpm`): the parser with its leftmost, greedy pattern and the
  re-print check, the two prints, and the comparison. `rpm.LabelCompare` is any three-way total preorder.
- **Update lists** (`Orders`, `Vmaas`, `OrderedMerge`, `MergeUpdates`, `LatestFilter`, `Reports`): the
  sorted merge, the filter for the latest package of each name, the installability rules and the fold
  to advisory statuses. Iteration over a Go map is a loop that picks any remaining key, or any order.
- **Responses in memory** (`VmaasData`, `VmaasCache`): the same functions on objects that are changed
  in place, and the answer cache with its deep copies.
- **Advisories and account counts** (`AdvisoryChanges`, `AccountCounts`, `CountRuns`, `CacheCheck`,
  `EvaluationSteps`, `Database`, `SystemCounts`): classification, delete and upsert, the incremental
  counts, the trigger for the stale flag, deletion and refresh, against the recount that the cache check
  computes; in runs of whole evaluations, and in interleavings of their steps.
- **Locks** (`LockOrder`): concurrent transactions that upsert sorted lists of count rows.
- **Packages** (`PackageCache`, `LatestUpdates`, `SystemPackages`): the four bounded maps over the
  package table, and the package diff that uses them. An eviction may hit any entry.
- **Events** (`Batching`, `FlushBuffer`, `Aggregator`, `Listener`): grouping and batching, and the
  two buffers under a lock with full-buffer and timer flushes. A schedule of steps is any interleaving.
- **Deletes** (`Tombstones`): tombstones, uploads, culling and pruning over time.
- **Filters** (`Filters`): parsing, combining and printing of API filters.

## Where the code is not what it is for

- **Account counts.** The deltas of an updated status and of a removed APPLICABLE row are not those of
  the recount. `CountRuns.DriftLaw` says by how much the counts are off after any run,
  `CountRuns.CountsRightIff` when they are right, and `CountRuns.RemovalMiscounts` shows one run where
  they are not. For evaluations that read the system, load and store in separate steps,
  `EvaluationSteps.InterleavedDriftLaw` gives the drift, `EvaluationSteps.AlwaysAgreesIff` the runs that
  keep all counts right, and `EvaluationSteps.RaceCountsTwice` two evaluations that count one advisory twice.
- **Merging.** On a package that cannot be parsed the merge loop continues without advancing, so it
  does not end. The warning there speaks of skipping; the model follows the code.
  `MergeUpdates.LoopsForeverIff` gives the condition, `Reports.HangsIff` gives it for a whole evaluation
  and `Reports.EvaluationHangs` an input.
- **Latest packages.** With tied keys the filter depends on the map order;
  `LatestFilter.OrderIndependentIff` gives the condition and `Reports.BothPrintsTie` the input: a package under
  both of its prints beside a newer one.
- **Stored packages.** Evaluating a stored report again should change nothing. A package reported without
  its zero epoch is removed and added again each time; `SystemPackages.SecondEvaluationKeepsIff` gives
  the condition and `SystemPackages.BashIsRewritten` an input.
- **Late uploads.** The look at the tombstone and the write of the system are not one step;
  `Tombstones.LateWritesLookedEarly` says which uploads can slip through, `Tombstones.KeepsAllThroughoutIff`
  which runs keep every deleted system deleted and `Tombstones.LateUploadRevives` a run that does not.

What the code relies on elsewhere: the package cache finds a row under the key it asks for only because
both writers of the table print the EVRA without a zero epoch (`tasks/vmaas_sync/package_sync.go:302`,
`evaluator/evaluate_packages.go:61`); `PackageCache.KeyAgreesIff` says that this is exactly what is needed.

## Model

| member | source | states |
|---|---|---|
| Rpm.ParseAcceptsExactlyPrints | base/utils/rpm.go:14-72 | A string parses to a given identity exactly when the identity is well formed and the string is one of its two prints |
| Rpm.RoundTrip | base/utils/rpm.go:36-94 | Parsing either print of a well-formed identity gives it back |
| Rpm.ReadsAsWritten | base/utils/rpm.go:14-72 | Which texts read as a package, character by character, with any epoch a 64-bit integer holds or none |
| Rpm.FullPrintIsInjective | base/utils/rpm.go:85-90 | Two well-formed identities with the same full print are equal |
| Rpm.JoinAgreesWithPrint | base/utils/rpm.go:78-90 | Name and stored EVRA joined give the full print, whether or not the stored EVRA shows a zero epoch |
| Rpm.CmpIsPreorder | base/utils/rpm.go:118-135 | Comparison is a total preorder with values -1, 0, 1 for any such label comparison, and ties only within one name and arch |
| Text.DigitsInOrder | base/utils/rpm.go:85-90 | Numbers are printed in decimal, most significant digit first |
| Rpm.CmpDecides | base/utils/rpm.go:118-135 | The name decides first, then what LabelCompare says of the epoch, version and release of the first against those of the second, then the arch |
| Text.CompareDecides | base/utils/rpm.go:126-134 | Texts compare by their first difference, the smaller character or the end of the text coming first |
| Vmaas.TieIsSameKey | base/vmaas/vmaas.go:175-189 | Two updates compare equal exactly when package, erratum, repository, basearch and releasever agree |
| Vmaas.FirstDifferenceDecides | base/vmaas/vmaas.go:175-189 | The first of package, erratum, repository, basearch and releasever in which two updates differ decides their order |
| Vmaas.ListOrderIsPreorder | base/utils/vmaas.go:54-58 | The order of update lists is a total preorder that ties exactly on equal update keys |
| Vmaas.ListOrderDecides | base/utils/vmaas.go:42-58 | Of two readable updates the name of the package decides, then what LabelCompare says of the labels, then the arch, then the rest of the update |
| MergeUpdates.Run | base/utils/vmaas.go:38-82 | The index loop computes the merge outcome, including the case in which it would never end |
| MergeUpdates.MergeKeepsFirstList | base/utils/vmaas.go:38-82 | For sorted readable lists: sorted output, all of the first list, and from the second exactly the updates with a key the first lacks |
| MergeUpdates.MergeKeepsKeys | base/utils/vmaas.go:38-82 | For any lists on which the loop ends: nothing of the first list is lost, nothing is invented, every key survives, and the second list loses only what ties with the first |
| MergeUpdates.LoopsForeverIff | base/utils/vmaas.go:42-52 | Whatever the lists, the loop never ends exactly when one blocks the other: it has an unreadable package, and the other list has one too or is not used up when all before that package is |
| MergeUpdates.SecondListBlocksIff | base/utils/vmaas.go:42-52 | With a readable first list, in any order, the loop never ends exactly when the second list blocks it |
| MergeUpdates.SortedLoopsForeverIff | base/utils/vmaas.go:42-52 | For lists in order this means that the update before the unreadable package sorts below the last one of the first list |
| OrderedMerge.RecordsAreRecords | base/utils/vmaas.go:54-71 | What decides which of two lists is used up first: the elements that no later one of the list exceeds |
| MergeUpdates.UnreadableFrontHangs | base/utils/vmaas.go:42-52 | The smallest input on which it never ends |
| LatestFilter.EveryOrder | base/utils/vmaas.go:85-124 | For every map iteration order: all keys no other key of the name beats survive, and any further survivor is a readable key tied with another |
| LatestFilter.OrderIndependentIff | base/utils/vmaas.go:85-124 | The filter leaves exactly the latest keys for every iteration order if and only if no key that is beaten is also tied |
| LatestFilter.TiedLoserCanStay | base/utils/vmaas.go:100-115 | When a beaten key is tied, some iteration order leaves something other than the latest keys |
| LatestFilter.SecondOfTieStays | base/utils/vmaas.go:111-114 | The order that shows it: of two tied keys that come first, the second one is never deleted |
| Reports.FoldUpdate | evaluator/remediations.go:49-58 | Adding one update to the set of updates changes the advisory statuses as the body of the inner loop does |
| Reports.CombinedKeysAreLatest | base/utils/vmaas.go:13-36 | Without tied losers the keys of a merged report are exactly the latest ones of both reports |
| Reports.OlderGoes | base/utils/vmaas.go:100-115 | A package whose label LabelCompare puts below that of another one of its name is removed for every map order, unless it ties with a third one |
| Reports.NewestStays | base/utils/vmaas.go:100-115 | A package stays if no other of its name has a greater label or, on equal labels, a greater arch |
| Reports.UnreadableGoes | base/utils/vmaas.go:91-99 | A key that is no package goes |
| Reports.BothPrintsTie | base/utils/vmaas.go:100-115 | Two prints of one zero-epoch package beside a newer one make the filter order-dependent |
| Reports.CombinedList | base/utils/vmaas.go:24-31 | Each list of a merged report holds the whole list of the first report and, of the second, all but what the first has with the same package and erratum |
| Reports.InstallableIffYumCarriesIt | evaluator/evaluate.go:334-343 | With yum all installable and VMaaS all applicable, an erratum comes out installable exactly when a yum update under a surviving key carries it |
| Reports.YumListed | evaluator/evaluate.go:247-288 | Yum's report holds, for each readable update, one with the same erratum, repository, basearch, releasever and package, named after the package with its epoch, and installable |
| Reports.YumKeepsOrder | evaluator/evaluate.go:247-288 | A readable report keeps its updates one by one, in order |
| Reports.NothingInstallable | evaluator/evaluate.go:344-350 | When every update is applicable no reported advisory is installable |
| Reports.InstallableIffInTemplate | evaluator/template_advisory.go:59-81 | Under template evaluation the reported errata stay the same and each is installable exactly when the template lists it |
| Reports.InstallabilityEndToEnd | evaluator/evaluate.go:301-352 | For every system, report and answer that lead to an evaluation: which errata are reported, and which of them are installable, by what yum and VMaaS delivered and by the flags of the system |
| Reports.AllInstallable | evaluator/evaluate.go:334-343 | When VMaaS delivers everything installable, so is every erratum of a system managed by neither Satellite nor a template |
| Reports.VerdictIs | evaluator/evaluate.go:301-333 | No other verdict is open where an evaluation fails, and none where it skips the system, by the answer of VMaaS, the flags and yum's report |
| Reports.VerdictsReached | evaluator/evaluate.go:301-333 | Every evaluation reaches some verdict |
| Reports.HangsIff | evaluator/evaluate.go:301-352 | For every system, report and answer, lists in order or not: the evaluation never ends exactly when, under a package key of both reports, VMaaS lists an unreadable package that the merge reaches before the updates of yum are used up |
| Reports.ReadableAnswersEnd | evaluator/evaluate.go:301-352 | An answer whose packages all parse never hangs an evaluation, whatever the order of the lists |
| Reports.EvaluationHangs | evaluator/evaluate.go:301-352 | A concrete system, report and answer whose evaluation never ends |
| VmaasData.UpdateList.SetUpdatesInstallability | base/vmaas/vmaas.go:83-90 | Sets the status of every update of the list in place and nothing else |
| VmaasData.UpdateList.ApplyTemplate | evaluator/template_advisory.go:68-79 | Rewrites the statuses of a list in place: installable exactly for the errata of the template, updates without erratum as they were |
| VmaasData.Response.SetInstallability | evaluator/evaluate.go:337-340 | The installability loop rewrites every list of the response, whichever order the keys come in |
| VmaasData.Response.ApplyTemplateAdvisoryInstallability | evaluator/template_advisory.go:59-81 | Rewrites the whole response in place by the template rule |
| VmaasData.Response.GetReportedAdvisories | evaluator/remediations.go:46-61 | The nested loops yield each non-empty erratum, installable if and only if some update with it is, for any map order |
| VmaasData.Response.RemoveNonLatestPackages | base/utils/vmaas.go:85-124 | In place and for any map order, what is left is the survivors of that order with their lists untouched |
| VmaasData.Response.MergeKey | base/utils/vmaas.go:25-30 | One turn of the merge loop: the merged list replaces the old one, or the other report's list is taken over |
| VmaasData.Response.MergeLists | base/utils/vmaas.go:24-31 | The loop over the other report's keys, in any order; it stops at a key whose lists cannot be merged |
| VmaasData.Response.Absorb | base/utils/vmaas.go:20-33 | The loop ends exactly when no common key hangs, and then holds the key-by-key merge of both reports |
| VmaasData.MergeVMaaSResponses | base/utils/vmaas.go:13-36 | Missing reports, the merge in place and the final filter, with the exact condition under which the merge ends |
| VmaasCache.Cache.Get | evaluator/vmaas_cache.go:45-56 | A hit, exactly for a resident checksum, is a sound object inside the cache that still says what was added |
| VmaasCache.Cache.Add | evaluator/vmaas_cache.go:58-66 | The added answer is resident and every other resident answer is unchanged, whatever is evicted |
| VmaasCache.Cache.Reset | evaluator/vmaas_cache.go:68-74 | An enabled cache is emptied |
| VmaasCache.DeepCopy | evaluator/evaluate.go:360-366 | A copy that says the same and shares no object with the original |
| VmaasCache.GetVmaasUpdates | evaluator/evaluate.go:354-398 | The caller gets the cached or fetched answer in objects the cache cannot reach; a fetched answer is kept under its checksum, and residents change only by it |
| VmaasCache.HandOut | evaluator/evaluate.go:354-398 | One lookup hands out the delivered answer in a new response apart from the cache, with a request exactly when the checksum is not resident |
| VmaasCache.Session | evaluator/evaluate.go:354-398 | Isolation over every run: a lookup that makes a request hands out its answer, any other hands out an answer, one right after a lookup of the same checksum makes none, and each sees the answer of a request made for that checksum since the last reset, whatever callers rewrite |
| VmaasCache.TryGetYumUpdates | evaluator/evaluate.go:247-288 | Yum's report as the evaluation uses it: readable updates only, names and EVRAs from the parsed package, everything installable |
| VmaasCache.GetTemplateAdvisoryUpdatesData | evaluator/template_advisory.go:21-42 | Template evaluation reaches one of the allowed verdicts in fresh objects and leaves the cache sound |
| VmaasCache.MergeForSystem | evaluator/evaluate.go:343-351 | Merge, then all applicable for image-mode systems |
| VmaasCache.GetVmaasSide | evaluator/evaluate.go:318-341 | The VMaaS side after the rule for Satellite and templates, apart from the cache |
| VmaasCache.ApplyManagement | evaluator/evaluate.go:334-341 | With Satellite or a template in charge everything VMaaS delivered becomes applicable in place; otherwise it stays as delivered |
| VmaasCache.FromBothSources | evaluator/evaluate.go:308-352 | Evaluation from yum and VMaaS reaches one of the allowed verdicts |
| VmaasCache.GetUpdatesData | evaluator/evaluate.go:301-352 | Both paths reach an allowed verdict in fresh objects; it fails exactly when VMaaS failed and there is no yum report to use, and skips the system exactly on a bad request or with nothing to use |
| AdvisoryChanges.ClassifyReported | evaluator/evaluate_advisories.go:89-115 | The first loop drafts Keep, Update or Add for every reported name and lists the names not stored |
| AdvisoryChanges.LoadMissingNamesIDs | evaluator/evaluate_advisories.go:65-81 | Fills in the IDs of added names; fails exactly when one has no metadata |
| AdvisoryChanges.EvaluateChanges | evaluator/evaluate_advisories.go:86-132 | For any map order the classification of every reported and stored name, or the error when a new name is unknown |
| AdvisoryChanges.ProcessAdvisories | evaluator/evaluate_advisories.go:341-379 | Lists exactly the removed IDs and exactly the added or updated rows |
| AdvisoryChanges.UpsertedAt | evaluator/evaluate_advisories.go:336-339 | What an upsert of rows with distinct IDs leaves under each ID |
| AdvisoryChanges.AppliedAt | evaluator/evaluate_advisories.go:381-398 | Delete then upsert leaves a name's row exactly when it is reported, with the reported status |
| AdvisoryChanges.StoredBecomesReported | evaluator/evaluate_advisories.go:86-132 | Diff and apply: for any stored rows and any listing order the rows read back as exactly the report |
| AdvisoryChanges.SecondEvaluationKeeps | evaluator/evaluate_advisories.go:92-107 | Evaluating a report that is already stored yields only Keep |
| AdvisoryChanges.CollectDeltas | evaluator/evaluate_advisories.go:271-312 | The map of deltas holds, for distinct IDs and any order, the delta of each changed advisory and no other |
| AdvisoryChanges.SortDeltas | evaluator/evaluate_advisories.go:314-325 | The deltas in strictly ascending order of advisory ID |
| AdvisoryChanges.CalcAdvisoryChanges | evaluator/evaluate_advisories.go:264-326 | Nothing for a stale system, otherwise one delta per changed advisory in ascending order |
| AccountCounts.RecountMoves | base/database/testing.go:68-79 | When one system is touched, the recount of a cell moves by the change of that system's share |
| AccountCounts.RecountIs | base/database/testing.go:68-79 | The recount of a cell is the number of the account's evaluated, not stale systems with a row, and of those with an INSTALLABLE row |
| AccountCounts.ChangeAtIs | evaluator/evaluate_advisories.go:86-132 | The change recorded for an advisory is determined by its row before and after |
| AccountCounts.MarksFit | evaluator/evaluate_advisories.go:273-312 | Delta minus the change of the recount is exactly what an update or a removed APPLICABLE row contributes |
| AccountCounts.EvaluateDrift | evaluator/evaluate_advisories.go:238-326 | The drift law for one evaluation, also when it fails or the system is stale |
| AccountCounts.SetStaleDrift | database_admin/schema/create_schema.sql:68-116 | The trigger keeps the drift when a system enters or leaves the counts |
| AccountCounts.DeleteDrift | database_admin/schema/create_schema.sql:365-419 | Deleting a system keeps the drift, because it is marked stale first |
| AccountCounts.RefreshDrift | database_admin/schema/create_schema.sql:118-158 | A refresh clears the drift of the cells of the given account and advisories, or of all of them, and of no other |
| AccountCounts.StepDrift | evaluator/evaluate_advisories.go:238-326 | The drift law for every kind of event |
| AccountCounts.StepKeepsWellFormed | evaluator/evaluate_advisories.go:381-398 | Every event keeps names unique and rows only for systems that exist and were evaluated |
| CountRuns.DriftLaw | evaluator/evaluate_advisories.go:264-326 | Over every run in which evaluations load and store in one step, the cached counts are off by exactly the marks since the last refresh of the cell |
| CountRuns.ApplicableNeverTooLow | base/database/testing.go:92-108 | From agreement, the cached systems_applicable is never below the recount |
| CountRuns.CountsRightIff | base/database/testing.go:92-108 | From agreement, exactly when each cached count equals the recount |
| CountRuns.MarksReadRows | evaluator/evaluate_advisories.go:86-132 | The marks of an evaluation can be read off the row before and after it |
| CountRuns.CleanRunsAgree | base/database/testing.go:92-108 | Runs that update no status and remove no APPLICABLE row agree in every cell at every state |
| CountRuns.RemovalMiscounts | evaluator/evaluate_advisories.go:273-284 | A concrete evaluation after which the counts are (-1, 1) against a recount of (0, 0) |
| EvaluationSteps.StoreDrift | evaluator/evaluate_advisories.go:238-262 | The drift law for a store of changes classified earlier, whatever happened to the system since |
| EvaluationSteps.ActiveStoreMark | evaluator/evaluate_advisories.go:273-312 | What a store adds to the drift, by the row it meets |
| EvaluationSteps.StoreFitsIff | evaluator/evaluate_advisories.go:264-326 | A store leaves a cell as right as it was exactly when its delta fits the row and the flag it meets |
| EvaluationSteps.CalmStoreMark | evaluator/evaluate_advisories.go:264-326 | When nothing happened since the load, the mark is that of an evaluation in one step |
| EvaluationSteps.LateStoreDrift | evaluator/evaluate_advisories.go:390-398 | A store after its system was deleted writes no row and moves the drift by its whole delta |
| EvaluationSteps.SecondStoreCountsAgain | evaluator/evaluate_advisories.go:415-433 | Two evaluations of one system that both loaded before either stored count a new advisory twice |
| EvaluationSteps.LoadThenStoreIsEvaluate | evaluator/evaluate_advisories.go:38-63 | A load and its store with nothing in between are one evaluation event |
| EvaluationSteps.UndisturbedIsEvaluate | evaluator/evaluate.go:476-498 | A worker that reads the system, loads and stores without being disturbed does one evaluation event, failed or not |
| EvaluationSteps.FlagIsReadFirst | evaluator/evaluate.go:213-245 | What is stored in the end goes by the flag that was read first and by the rows there are at the load |
| EvaluationSteps.ActionKeepsWorldOk | evaluator/evaluate_advisories.go:381-398 | Every action keeps the tables well formed and the loaded changes on known advisories |
| EvaluationSteps.InterleavedDriftLaw | evaluator/evaluate.go:213-245 | The drift law over every interleaving of reads of the system, loads, stores, stale flips, deletions, refreshes and evaluations |
| EvaluationSteps.InterleavedCountsRightIff | base/database/testing.go:92-108 | From agreement a cell is right after an interleaving exactly when its marks since the last refresh cancel out |
| EvaluationSteps.AgreesAfterIff | base/database/testing.go:92-108 | From agreement, an action leaves every cell right exactly when it is a clean event or a store that fits the rows and the flag it meets |
| EvaluationSteps.AlwaysAgreesIff | base/database/testing.go:92-108 | From agreement, an interleaving keeps every cell right at every state exactly when each of its events is clean and each of its stores fits |
| EvaluationSteps.RaceCountsTwice | evaluator/evaluate_advisories.go:415-433 | A concrete interleaving of two evaluations from tables that agree, after which the counts are (2, 2) against a recount of (1, 1) |
| CacheCheck.AddRows | database_admin/schema/create_schema.sql:101-114 | Adding or taking a system's rows moves each cell of its account by its row |
| CacheCheck.CountRows | base/database/testing.go:68-79 | The grouped count over all systems is the recount in every cell |
| CacheCheck.CrossCheck | base/database/testing.go:92-106 | True exactly when every entry of the first map equals the second map's, 0 where it has none |
| CacheCheck.CheckCachesValidRet | base/database/testing.go:55-112 | True exactly when cached and recounted numbers agree in every cell |
| CacheCheck.RefreshCaches | database_admin/schema/create_schema.sql:118-158 | Matching cells get the recount or lose their row, the others stay |
| Database.NewIds | evaluator/evaluate_advisories.go:162-189 | Fresh distinct IDs for exactly the unknown names of 1 to 99 characters |
| Database.ApplyIsRowsAfter | evaluator/evaluate_advisories.go:381-398 | Delete and upsert give each row what its change says, whatever rows they meet |
| Database.AddDeltas | evaluator/evaluate_advisories.go:415-433 | The row-by-row upsert adds each delta onto its own cell and touches no other |
| Database.DeltasMatch | evaluator/evaluate_advisories.go:264-326 | The delta listed for an advisory is the one of its change |
| Database.DeltasMatchAll | evaluator/evaluate_advisories.go:264-326 | The listed deltas are those of the changes for every advisory, and none for a stale system |
| Database.Tables.Evaluate | evaluator/evaluate_advisories.go:38-63 | One evaluation on the whole state is the evaluation event; it fails exactly for an unknown system or an unknown name that is empty or has 100 or more characters, and on success the rows read back as the report |
| Database.FirstAdvisory | evaluator/evaluate_advisories.go:38-63 | The first evaluation of a new system that reports a name not known before stores one row and counts one system |
| Database.Tables.LazySaveAndLoad | evaluator/evaluate_advisories.go:38-63 | Saves exactly the unknown names of 1 to 99 characters, loads and classifies; fails exactly when another unknown name is reported |
| Database.Tables.SaveMissing | evaluator/evaluate_advisories.go:135-160 | Lazy saving adds exactly the unknown names of 1 to 99 characters |
| Database.Tables.Store | evaluator/evaluate_advisories.go:238-262 | Stores changes classified earlier: the rows of a system that still exists follow their changes, the counts move by the deltas even if it is gone |
| Database.Tables.SetStale | database_admin/schema/create_schema.sql:68-116 | Update of the flag with the trigger; nothing but the flag and the counts changes |
| Database.Tables.Delete | database_admin/schema/create_schema.sql:365-419 | Deletion of a system: flag, trigger, rows, system |
| Database.Tables.Refresh | database_admin/schema/create_schema.sql:118-158 | Cells of the given account and advisories get the recount, all others keep their counts |
| Database.Perform | evaluator/evaluate.go:213-245 | One job of a worker is its own action, on the tables and on what the workers have read and loaded |
| Database.Interleave | evaluator/evaluate_advisories.go:38-63 | Whatever jobs workers do on the tables in whatever order, each job is its own action and the tables go through an interleaving that obeys the drift law |
| SystemCounts.CountAdvisories | evaluator/evaluate.go:579-621 | For any map order the eight counters are the numbers of stored advisories, in all and of types 1, 2 and 3, installable and any |
| SystemCounts.CountsAreConsistent | evaluator/evaluate.go:605-632 | Installable never exceeds applicable per type and in total; types add up to the total exactly when there is no other type |
| LockOrder.RowsAreLocked | evaluator/evaluate_advisories.go:415-433 | In every reachable state no two running transactions hold the same row |
| LockOrder.NoDeadlock | evaluator/evaluate_advisories.go:314-325 | In every reachable state no group of transactions waits in a circle |
| LockOrder.Progress | evaluator/evaluate_advisories.go:314-325 | As long as a transaction runs, one can take its next row or commit, and every step leaves less work |
| LockOrder.DeltasAreSorted | evaluator/evaluate_advisories.go:314-325 | The deltas of an evaluation are such a sorted list |
| LockOrder.UnsortedDeadlocks | evaluator/evaluate_advisories.go:319-324 | Without the sort two transactions can block each other |
| PackageCache.KeyAgreesIff | evaluator/package_cache.go:267-275 | A row's cache key asks the table for that very row exactly when its name and EVRA are those of a well-formed identity, printed without a zero epoch |
| PackageCache.Put | evaluator/package_cache.go:259-265 | A bounded add: the row is there, every other entry is an old one under its own key |
| PackageCache.PutLatest | evaluator/package_cache.go:277-292 | The latest row of a name is replaced only by a greater EVRA, so it stays the greatest of the rows added while the name is resident |
| PackageCache.PutName | evaluator/package_cache.go:294-303 | The row under a name ID stays if there is one |
| PackageCache.Cache.Add | evaluator/package_cache.go:252-257 | All four maps hold the row's keys and stay sound |
| PackageCache.Cache.GetByID | evaluator/package_cache.go:125-144 | Same answer as the table |
| PackageCache.Cache.GetByNevra | evaluator/package_cache.go:146-165 | Same answer as the table, for every string |
| PackageCache.Cache.GetByNevras | evaluator/package_cache.go:168-208 | Finds exactly the rows the strings ask for; a string is missing exactly when it parses and is not the key of the row it asks for |
| PackageCache.MissingIffNoRow | evaluator/package_cache.go:382-399 | A string that shows its epoch is missing exactly when the table has no row for it |
| PackageCache.MissingExactly | evaluator/package_cache.go:168-208 | A string is missing exactly when it parses and either hides its epoch or has no row |
| PackageCache.RowAskedFor | evaluator/package_cache.go:351-359 | A string asks for the row with its name and its EVRA, which shows the epoch only if it is not zero |
| PackageCache.Cache.GetLatestByName | evaluator/package_cache.go:210-229 | A hit is the greatest by version of the rows of the name added while it was resident; otherwise the greatest row in text order, which is added; an answer exactly for names with a package |
| PackageCache.Cache.GetNameByID | evaluator/package_cache.go:231-250 | Same answer as the table |
| PackageCache.ReadByNevra | evaluator/package_cache.go:351-359 | The row with the parsed name and EVRA |
| PackageCache.ReadLatestByName | evaluator/package_cache.go:402-404 | The greatest row of the name in text order |
| PackageCache.ReadByNevras | evaluator/package_cache.go:362-400 | The rows asked for and the missing strings of one query |
| PackageCache.Session | evaluator/package_cache.go:125-303 | Transparency over every sequence of lookups, bulk lookups, additions, evictions and table growth; the latest row of a name is the text-greatest of the table or the version-greatest of those added since some addition of the name |
| LatestUpdates.LastIsGreatest | evaluator/evaluate_packages.go:316-328 | On a list sorted as the merge delivers it, the chosen package is NEVRA-maximal for its status |
| LatestUpdates.LastOfMergeIsGreatest | evaluator/evaluate_packages.go:316-328 | The same for what the merge makes of two sorted readable lists |
| LatestUpdates.NoneOffers | evaluator/evaluate_packages.go:316-328 | Nothing is chosen for a status exactly when no update of that status names a package |
| LatestUpdates.LatestIdIs | evaluator/evaluate_packages.go:311-340 | The installable ID is that of the last INSTALLABLE update that names a package, the applicable ID that of the last APPLICABLE one |
| LatestUpdates.LatestPackagesFromUpdatesList | evaluator/evaluate_packages.go:311-340 | The loop and the cache lookups give the ID of the package in the last INSTALLABLE update that names one, and likewise for APPLICABLE; none if that package is unknown |
| SystemPackages.PackagesFromUpdateList | evaluator/evaluate_packages.go:143-180 | For any map order one entry per valid reported string, and the three counters count them |
| SystemPackages.CountsAreOrdered | evaluator/evaluate_packages.go:143-180 | 0 <= installable <= applicable <= installed |
| SystemPackages.CountersAre | evaluator/evaluate_packages.go:143-180 | The three counters are the valid strings, those with an installable update and those with any update |
| SystemPackages.IsValidNevra | evaluator/evaluate_packages.go:226-237 | Valid exactly when not a phantom and known |
| SystemPackages.CompareOne | evaluator/evaluate_packages.go:199-219 | What comparing one stored row changes |
| SystemPackages.LoadSystemNevras | evaluator/evaluate_packages.go:182-224 | Every stored row is compared, in any order; it fails exactly when a stored package is unknown |
| SystemPackages.SortedKeys | evaluator/evaluate_packages.go:274-278 | The strings in strictly ascending order |
| SystemPackages.ListChanges | evaluator/evaluate_packages.go:280-296 | Removed IDs, and for each written package the entry of its smallest string, no package twice |
| SystemPackages.UpsertedAt | evaluator/evaluate_packages.go:302-306 | What the upsert leaves under each package ID |
| SystemPackages.UpdateSystemPackages | evaluator/evaluate_packages.go:261-309 | The row of every package after delete and upsert |
| SystemPackages.BecomesReported | evaluator/evaluate_packages.go:143-224 | Whatever was stored, a package has a row exactly when a reported string stands for it, and the row such a string calls for |
| SystemPackages.RowsAre | evaluator/evaluate_packages.go:261-309 | A package has a row exactly when a reported string stands for it, with the IDs of the latest INSTALLABLE and of the latest APPLICABLE update reported under such a string |
| SystemPackages.StandsIff | evaluator/evaluate_packages.go:226-237 | A reported string stands for a package unless it begins with gpg-pubkey or the table does not know it |
| SystemPackages.DistinctRows | evaluator/evaluate_packages.go:288-294 | When no two strings stand for one package, each row is the one its string calls for |
| SystemPackages.RowCount | evaluator/evaluate_packages.go:288-294 | There are as many rows as valid strings exactly when these stand for distinct packages |
| SystemPackages.SecondEvaluationKeeps | evaluator/evaluate_packages.go:203-210 | A report under canonical keys that is already stored yields only Keep |
| SystemPackages.SecondEvaluationKeepsIff | evaluator/evaluate_packages.go:199-219 | Evaluating a stored report again yields only Keep exactly when each string that stands for a package is its own key |
| SystemPackages.EpochlessIsRewritten | evaluator/evaluate_packages.go:199-219 | A stored package reported without its zero epoch is added and removed at once |
| SystemPackages.BashIsRewritten | evaluator/evaluate_packages.go:199-219 | A concrete stored report that is rewritten |
| SystemPackages.EvaluatePackages | evaluator/evaluate_packages.go:130-141 | Any report and stored rows end as the reported packages with their latest updates by status and the three counters; fails exactly when a stored package is unknown |
| Batching.GroupByAccount | base/mqueue/platform_event.go:90-103 | Each account's systems and requests in order, and its first organisation |
| Batching.BatchCount | base/mqueue/platform_event.go:79-88 | The sum of the ceiling divisions, for any map order |
| Batching.AppendBatches | base/mqueue/platform_event.go:123-136 | One account's batches hold its systems and requests in order, each batch bounded, and are as many as the ceiling division |
| Batching.WriteEvents | base/mqueue/platform_event.go:115-139 | Conservation, bounds (the given size, or the default for none) and number of the events for any list and any size |
| Batching.ReadEvent | evaluator/evaluate.go:767-777 | The i-th system is paired with the i-th request; without one it keeps the last request |
| Batching.JobsAreRecovered | evaluator/evaluate.go:767-777 | Written and read back, each account's pairs are the original ones in order |
| FlushBuffer.AppendKeepsInv | aggregator/events.go:53-57 | Appending keeps order, a coming flush and the bound |
| FlushBuffer.TakeKeepsInv | aggregator/events.go:31-40 | Taking the buffer keeps them |
| FlushBuffer.BufferIsBounded | aggregator/events.go:53-62 | At most threshold - 1 plus the number of readers |
| Aggregator.GroupAdvisoryUpdates | aggregator/events.go:66-86 | Per account exactly the mentioned advisories, each once, for any order |
| Aggregator.AdvisoryBuffer.Append | aggregator/events.go:53-57 | The locked append and the decision to flush |
| Aggregator.AdvisoryBuffer.Take | aggregator/events.go:30-40 | The locked take of the whole buffer |
| Aggregator.AdvisoryBuffer.GroupBatch | aggregator/events.go:42-43 | The grouping of a taken batch, later and without the lock |
| Aggregator.NothingForgotten | aggregator/events.go:30-86 | What is refreshed, in work and buffered is what the events mention |
| Aggregator.Interleave | aggregator/events.go:30-64 | Every action of a schedule has its effect; buffer safety under every interleaving of readers, takes by readers and timers, and later grouping |
| Listener.EventBuffer.BufferEvalEvents | listener/event_buffers.go:35-54 | Both buffers grow by the same upload |
| Listener.EventBuffer.FlushEvalEvents | listener/event_buffers.go:62-81 | Both buffers are emptied even when a send fails; the topics get what was sent |
| Listener.AllDelivered | listener/event_buffers.go:62-81 | When no send fails everything flushed is delivered |
| Listener.Interleave | listener/event_buffers.go:35-81 | Every action of a schedule has its effect; buffer safety and alignment under every interleaving and any failing sends; the topic gives the evaluators the delivered pairs |
| Tombstones.AcceptedIff | listener/upload.go:811-821 | After any run an upload is accepted exactly when its system was never deleted or its last delete is at least the threshold ago |
| Tombstones.LastDeleteIs | listener/events.go:69-73 | The recorded delete of a system is its last tombstone, at the time it was written |
| Tombstones.OvertakenIff | listener/upload.go:808-830 | An upload is overtaken exactly when its system was deleted after it had looked |
| Tombstones.LateWritesLookedEarly | listener/upload.go:808-830 | A write within the threshold after the latest delete comes from an upload whose look stands before a delete of its system in the run |
| Tombstones.DeletedStaysDeleted | listener/events.go:65-92 | After a delete and within the threshold the system is gone or marked exactly unless an upload that looked before the delete wrote it as not to be culled by now and nothing has touched it since |
| Tombstones.KeepsAllAfterIff | listener/upload.go:808-830 | From a state that keeps every window, an event breaks one exactly when it is the write of an upload that looked before the delete, within the window, of a system not to be culled by now |
| Tombstones.KeepsAllThroughoutIff | listener/upload.go:808-830 | A run keeps every deleted system gone or marked within its window at every moment exactly when none of its events is such a write |
| Tombstones.LateUploadRevives | listener/upload.go:808-830 | A concrete run that leaves a just deleted system alive |
| Tombstones.Perform | tasks/system_culling/system_culling.go:50-130 | One operation is its own event, and no event exactly when it cannot start |
| Tombstones.Interleave | tasks/system_culling/system_culling.go:50-130 | Any schedule of deletes, uploads, culling and pruning on the tables: each operation that can start is its event; decisions as without pruning, accepted exactly outside the window, late writes only by uploads that looked before, marked or gone exactly unless such an upload revived the system |
| Tombstones.PruningIsInvisible | tasks/system_culling/system_culling.go:122-130 | A run without pruning makes the same decisions and ends with the same systems |
| Tombstones.NeverDueNeverRemoved | tasks/system_culling/system_culling.go:51-80 | A system that at no selection of a run has a culled time before the current time is never removed by it |
| Tombstones.Tables.WriteTombstone | listener/events.go:69-73 | From here on uploads of the system are refused for the time of the threshold |
| Tombstones.Tables.MarkCulled | listener/events.go:82-103 | The system is gone or marked for culling now, whoever wrote it before |
| Tombstones.Tables.LookAtTombstone | listener/upload.go:811-821 | Accepted exactly when the system was never deleted or its last delete is at least the threshold ago |
| Tombstones.Tables.WriteSystem | listener/upload.go:822-829 | Within the window of a delete it can only be an upload that looked before it |
| Tombstones.Tables.DeleteCulledSystems | tasks/system_culling/system_culling.go:51-80 | Removes only systems whose culled time is set and before now, at most the limit, and with a sufficient limit all of them but the failing ones |
| Tombstones.Tables.DeleteEach | tasks/system_culling/system_culling.go:62-80 | One deletion step per selected system: all but the failing ones are gone |
| Tombstones.Tables.SelectCulled | tasks/system_culling/system_culling.go:52-60 | Selects only systems whose culled time is set and before now, all of them or as many as the limit |
| Tombstones.Tables.PruneDeletedSystems | tasks/system_culling/system_culling.go:122-130 | Removes tombstones older than the threshold only, at most the limit, and changes no decision |
| Filters.ReadsBackIff | manager/controllers/filter.go:44-65 | A filter reads back from its print exactly when its operator has no colon and its values are non-empty and without commas |
| Filters.ReadsAsWritten | manager/controllers/filter.go:44-65 | Before the first colon stands the operator, eq if there is none, and after it the values between commas |
| Filters.ParsedIsPrintable | manager/controllers/filter.go:44-65 | Everything parsed is such a filter and prints as it was given |
| Filters.FilterMap.Update | manager/controllers/filter.go:228-234 | A repeated filter takes the new type and operator, the new values first |
| Filters.FilterMap.ToQueryParams | manager/controllers/filter.go:201-212 | One part per filter from which it, or for a tag its values, reads back; the query splits into the parts exactly when there are any and none contains the separator |
| Filters.BuildAndPrint | manager/controllers/filter.go:201-234 | Filters built by any sequence of updates read back from their parts of the query |

## Left out

- Kafka, HTTP, S3, retries, gin handlers, gorm query building, bulk insert by reflection, JSON, logging, metrics and gauges, notifications and remediation messages.
- The engines of Go regular expressions, gorpm, hashicorp caches and copier: replaced by what they deliver. Recency is not modelled, so an eviction may hit any entry.
- Switches that turn an analysis or a cache off are taken as on, except those the installability rules and the answer cache look at.
- Database.Tables.Store: covers the advisory part of the transaction; that other statements may fail, so that nothing is stored, is the action Abandon of EvaluationSteps.
- Saving the missing advisory names and loading the stored rows are one action; a load that is then given up stands for the saving alone.
- The old-message check that lets an evaluation skip itself, and the order in which one worker's transactions commit.
- The notified column of advisory_account_data, the unsynced metadata texts, and the refresh of package counts.
- Locks other than those on count rows; a refresh takes its locks in no given order and is not among the transactions of LockOrder.
- Failures of the database and of the template errata query, other than the error results named in the table.
- The summary and description hashes of packages. The text order of the table and the version order of rpm are any total preorders.
- Saving unknown package names and packages: the package table may grow between requests in any way that keeps it well formed.
- Overflow of counters and IDs: numbers are unbounded; only the epoch is limited to the range of a 64-bit integer.
- Texts are sequences of characters; bytes and encodings are not distinguished.
- One clock for all processes and one threshold for uploads and pruning are assumed; the order in which the limit picks systems is arbitrary.
- Tags as they are parsed from a request: a tag without a value has an empty list of values, which no Update produces.
- RBAC, identities, certificates, migrations, exports, pagination, the template diff and the repository sync: not needed for the properties above.
