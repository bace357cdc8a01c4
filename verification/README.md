# Verified model of the NYC housing assistant's data core

The assistant keeps a local legal corpus and looks up housing violations at the
publisher (HPD, the city's housing department). This project models the parts that
must not lose, repeat or misstate records, and proves what they promise for every
input, every run and every crash point. `dafny verify dfyconfig.toml` checks it.

Four cores are modelled.

* **Property lookup, cache and complete export** (`PropertyConnector.dfy`,
  `PropertyCache.dfy`, `CompleteExport.dfy`). The connector pages by keyset through dated
  and undated rows, the cache stores responses in content-addressed files, the exporter
  combines pinned pages. The specification is one filter and one sort of the dataset.
* **Resumable snapshot load** (`SnapshotLoad.dfy`, `ViolationTable.dfy`). Full and
  delta runs with a checkpoint, a manifest and separate commits; the process may die before any commit.
* **Corpus generations** (`Corpus*.dfy`, `Embedding*.dfy`, `CommitBudget.dfy`,
  `Receipts.dfy`, `UserResources.dfy`). Immutable versions and chunks grouped into generations, one active
  pointer, a shared full-text index, embedding flags, rollback, user resources with
  operation receipts, an interruptible embedding run, and portable bundles. `Wf` is the
  invariant; `CorpusRuns` composes every operation into arbitrary runs.
* **Text** (`Whitespace.dfy`, `ResourceChunks.dfy`, `LegalText.dfy`). Bounded
  chunking, normalisation and deduplication of state-law sections.

`Common.dfy` holds shared values and `Ordering.dfy` the sorted listing of a finite set.
Every file holds the module of its name.

How things are represented:

* A SQL transaction is one atomic step. A crash, a cancellation or a provider failure is
  a budget of durable steps after which the operation stops.
* A method that runs several commits takes the tables as a value and returns the tables it
  leaves; the classes `LocalStorage`, `CorpusService`, `ResourceService` and
  `CorpusEmbeddingIndexer` hold and update them. The cache and the snapshot loader update
  their fields in place.
* Hashes and uuids made from content are injective datatype constructors. Fresh uuids are
  any unused key. The clock is a parameter; nothing but `RollBackTwice` and the order of
  activations in `Run` assumes that it advances.
* Violation ids are numbers in the publisher's order. Status dates are days, because the
  page key keeps ten characters (app/ingestion/hpd_violations.py:287).
* Corpus mutations are serialised: they share one target (app/jobs/mutations.py:17,
  app/jobs/maintenance.py:146-150).

Where the code does not do what one would expect, the model follows the code and the
exact condition is proved:

* docs/Local_Distribution_Feature_Specification.md:636-637 says that `auto` resumes an
  interrupted delta as a delta. The code starts a full run
  (app/ingestion/hpd_violations.py:312-317): `AutoResumesOnlyFull`.
* Installing the same artifacts twice returns the first generation if and only if the
  install activates it or the artifacts say nothing new: `InstallTwice`,
  `StagedInstallsDiffer`.
* An export cannot release its pins while workspace maintenance is active. On every exit a
  held page stays pinned if and only if neither the normal path, once reached, nor the final
  cleanup could write: `Export`, `ReleaseDuringMaintenance`.
* A receipt loses an optional field that is present but empty: `Receipts.RoundTrip`. The
  services never produce one, so `Replay` holds without a condition.
* Replacing a file by the version that is active overwrites the resource's model use but keeps
  the generation (app/corpus/resources.py:634-643), so a denied resource can keep ready chunks:
  `CorpusResources.InstallUserVersion` states exactly when, `DeniedButReady` is a run that does.
* An import does not look at the readiness of the bundle's generation, and the validator does
  not look at which versions the generation names: `CorpusBundle.RoundTrip` and
  `CorpusBundle.Import` state when the invariant and the user versions survive, and
  `EmbeddingBundleActivates` and `UserBundleActivates` are bundles that break them.

## Model

| member | source | states |
|---|---|---|
| `PropertyConnector.PagingReadsListing` | app/hpd/connector.py:236-308 | for every stable dataset, query and limit from 1 to 100, following continuations from a first page that needs no selection reads the dataset filtered and sorted once: each matching row exactly once, dated rows newest first with ties by id, then undated rows by id; only the last page is complete, every earlier page is full |
| `PropertyConnector.ChainReadsRemaining` | app/hpd/connector.py:236-308 | the same from any page on: a chain of pages reads exactly what its cursor has not passed |
| `PropertyConnector.NextContinues` | app/hpd/connector.py:553-562 | the continuation of a page stays with the page's building and leaves exactly the listing after the page, in either partition, so the chain terminates |
| `PropertyConnector.Search` | app/hpd/connector.py:203-329 | on a stable dataset `search` answers with the next page of the one-shot listing, the candidates, or the refusal of the specification, exactly when the publisher answers as many requests as the query needs, and is unavailable otherwise |
| `PropertyConnector.ReadRows` | app/hpd/connector.py:257-297 | the dated request plus the request for undated rows with the remaining limit read the first limit + 1 rows of what remains, across the partition boundary; the second request is needed exactly when the dated rows do not fill the page and no date filter applies |
| `PropertyConnector.PagesOfPartitions` | app/hpd/connector.py:236-297 | both WHERE texts with their ORDER BY and LIMIT compute the prefix of the remaining rows in the complete order |
| `PropertyConnector.PartitionsJoin` | app/hpd/connector.py:257-268 | the complete order is the dated partition followed by the undated one |
| `PropertyConnector.RequestsSelectRemaining` | app/hpd/connector.py:238-251 | the cursor filters select exactly the rows after the cursor in the complete order, and a date filter excludes undated rows |
| `PropertyConnector.WhereClausesSelect` | app/hpd/connector.py:396-409 | the clauses of the WHERE text select exactly the violations the query is about: both dates inclusive, undated rows only without a date filter |
| `PropertyConnector.RefusedQueries` | app/hpd/connector.py:62-107 | a query is refused exactly for no identifier, half an address, a limit outside 1 to 100 or reversed dates, and a continuation exactly when it was issued for another query or without a building |
| `PropertyConnector.IdentityClausesSelect` | app/hpd/connector.py:439-458 | the identity clauses select exactly the rows of the buildings the query is about |
| `PropertyConnector.AssembleCutsPage` | app/hpd/connector.py:298-322 | one row read beyond the limit decides exactly whether more rows follow, and rows of one building never require a selection |
| `PropertyConnector.FirstPageCoversMatches` | app/hpd/connector.py:216-235 | resolving an address to exactly one building, or to none, loses no matching row |
| `PropertyConnector.ChoosingCoversMatches` | app/hpd/connector.py:213-235 | an ambiguous address offers exactly the buildings with a row at it, without records or continuation; choosing one of them asks for exactly its rows, so no matching row is lost |
| `PropertyConnector.VerifiedZeroMeansNone` | app/hpd/connector.py:216-235 | a first page that needs no selection is a verified zero exactly when no row matches |
| `PropertyConnector.OneBuildingOneCandidate` | app/hpd/connector.py:521-536 | rows of one building give at most one candidate |
| `PropertyConnector.PageNamesBuilding` | app/hpd/connector.py:521-536 | a page of violations names the one building they are at, as its last record spells it, and an empty page none |
| `PropertyCache.CachedPropertyRepository.Lookup` | app/hpd/cache.py:50-80 | serves exactly what is due: a fresh row unless refreshed, else the connector's answer, else after an outage a stale row; every response served was received for the identical query, a fresh one within its time to live, a stale one never for a verified zero nor past either stale limit; a live answer is stored and the cache then evicted as `Evict` does, and any other outcome changes the row's access time only; what was received grows by exactly the connector's answer to this query; other rows are kept or evicted, and every pin of another row survives |
| `PropertyCache.CachedPropertyRepository.DueIsHonest` | app/hpd/cache.py:50-80 | whatever a lookup has to serve was received for the query and is within its limits; a stale response only when the connector failed |
| `PropertyCache.CachedPropertyRepository.StoredServes` | app/hpd/cache.py:162-187 | a response is served fresh for 24 hours after it was stored, a verified zero for one; then, with the network denied, stale until the retention has passed since it was stored or fetched, a verified zero never |
| `PropertyCache.CachedPropertyRepository.StaleUnlessRefused` | app/hpd/cache.py:65-77 | a stale row answers for every failure of the connector except a refusal of the query |
| `PropertyCache.CachedPropertyRepository.StoredLast` | app/hpd/cache.py:214-247 | the row stored last is evicted only when every other unpinned row is |
| `PropertyCache.CachedPropertyRepository.Refetch` | app/hpd/cache.py:65-80 | without a fresh row: the connector's answer is stored, the cache evicted and the answer served; an outage serves a stale row within both limits, any other failure is raised, and both leave the rows as they are |
| `PropertyCache.CachedPropertyRepository.Remember` | app/hpd/cache.py:78-80 | a response is stored under its key as a fresh, unpinned row, then the shortest least-recently-used prefix is evicted, and no file of a superseded or evicted row is left; if the workspace cannot be written no row changes |
| `PropertyCache.CachedPropertyRepository.Fetch` | app/hpd/connector.py:203-329 | the response under this connector version to the connector's answer, or the reason there is none |
| `PropertyCache.CachedPropertyRepository.Cached` | app/hpd/cache.py:82-106 | the cache alone serves exactly the rows that are fresh, or stale within both limits and not a verified zero when stale ones are allowed; only the access time of the row read changes |
| `PropertyCache.CachedPropertyRepository.Read` | app/hpd/cache.py:134-160 | a hit returns the decoded file of the row, the row's expiry and the earlier of the two stale limits, and touches only the access time |
| `PropertyCache.CachedPropertyRepository.Store` | app/hpd/cache.py:162-212 | after any number of its durable effects every row has a file that decodes to a response for that row's key; a completed store adds its file and removes exactly the superseded one |
| `PropertyCache.CachedPropertyRepository.Evict` | app/hpd/cache.py:214-247 | at every crash point rows keep their files, and exactly the files of the first evicted rows are gone; it removes exactly the shortest least-recently-used prefix of unpinned rows after which the rest fits, or all unpinned rows |
| `PropertyCache.CachedPropertyRepository.Clear` | app/hpd/cache.py:108-119 | refused during maintenance; at every crash point every remaining row keeps its file; the files go one by one, and a completed clear leaves no file of a removed row |
| `PropertyCache.CachedPropertyRepository.RemoveIfUnreferenced` | app/hpd/cache.py:265-276 | removes a file exactly when no row names it |
| `PropertyCache.CachedPropertyRepository.EvictedUnreferenced` | app/hpd/cache.py:244-247 | unlinking without a reference check is safe: no kept row names a file of an evicted row, because a file determines its key |
| `PropertyCache.CachedPropertyRepository.Pin` | app/hpd/cache.py:121-132 | reports whether the row was there and changes only its pin; fails during maintenance |
| `PropertyCache.ChooseVictims` | app/hpd/cache.py:233-243 | the eviction loop computes the shortest sufficient prefix and the files of its rows |
| `PropertyCache.OrderByLastAccess` | app/hpd/cache.py:223-231 | lists exactly the unpinned rows, each once, from the oldest access on |
| `PropertyCache.SumSizes` | app/hpd/cache.py:216-221 | the sum of the sizes of all rows |
| `PropertyCache.TotalWithout` | app/hpd/cache.py:242-243 | removing a row lowers the total by its size, whatever the order of summation |
| `PropertyCache.EvictionKeepsPinned` | app/hpd/cache.py:229-231 | eviction never removes a pinned row |
| `PropertyCache.EvictionFits` | app/hpd/cache.py:214-247 | after eviction the total is within the limit or only pinned rows are left |
| `PropertyCache.EvictedTidy` | app/hpd/cache.py:189-247 | after a store and its eviction every file of a row that was superseded or evicted is gone, and the other rows are as before or evicted |
| `PropertyCache.MirrorsKept` | app/hpd/cache.py:50-80 | over a stable dataset a lookup keeps every cached page equal to the publisher's answer to its query |
| `CompleteExport.Export` | app/hpd/complete.py:35-168 | a successful export equals the one-shot listing when it reports complete and otherwise is that list's prefix made of the pages fetched. For every number n of pages: if n turns go well and the next one is cancelled, past its deadline, or asks an unreachable publisher for an uncached page, the export keeps the n pages, incomplete, with that reason and the n-th continuation, or fails with the reason if n is 0; a refused write, pin or report fails it with that error; if the chain or the page limit ends it, it has all pages up to there. Each later failure (file, release, job service) has its own error. The queries pinned are those of the pages of the chain, in order, one for each page on success; all pins are released before success; on every exit a page of the run that is cached is held, and stays pinned if and only if neither the normal path, if reached, nor the final cleanup could release it |
| `CompleteExport.PinsLeftAfter` | app/hpd/complete.py:115-168 | which pins the two release loops together leave, for every pattern of failures |
| `CompleteExport.Conclude` | app/hpd/complete.py:111-148 | after the pages: success exactly when every pin could be released and the job service was reachable, else the error of the first of the two; the page count, the last continuation, and the reason, which the page limit overrides |
| `CompleteExport.ExportIsFaithful` | app/hpd/complete.py:111-113 | the combined pages with their interruption are a faithful export of the chain |
| `CompleteExport.CombineDropsNothing` | app/hpd/complete.py:183-187 | on a stable dataset deduplication drops no row of any number of fetched pages |
| `CompleteExport.Combine` | app/hpd/complete.py:183-187 | the dictionary loop keeps exactly the first record of each violation id, in order |
| `CompleteExport.KeepFirstKeepsIds` | app/hpd/complete.py:183-187 | every id survives deduplication, and only once |
| `CompleteExport.KeepFirstKeepsFirst` | app/hpd/complete.py:180-187 | the record kept under an id is the first one fetched |
| `CompleteExport.KeepFirstOfDistinct` | app/hpd/complete.py:183-187 | records with distinct ids all survive, in order |
| `CompleteExport.FetchPages` | app/hpd/complete.py:71-110 | the page loop reads a prefix of the chain through the cache and pins each page it keeps, in order; it holds every page of the run that is cached; for every n it ends with n pages and the outcome that the circumstances of the turn after them demand, or at the end of the chain or the page limit |
| `CompleteExport.TurnedEnds` | app/hpd/complete.py:71-110 | the loop ends exactly where the circumstances leave it no choice |
| `CompleteExport.FetchPage` | app/hpd/complete.py:72-86 | one attempt reads the publisher's answer, is interrupted, or raises, by the cause that comes first, and leaves other rows and pins alone |
| `CompleteExport.ReadableAttempt` | app/hpd/complete.py:72-86 | a query with an answer that the publisher can give and the cache can store is answered, whatever is cached |
| `CompleteExport.UpsetAttempt` | app/hpd/complete.py:72-86 | an attempt that is cancelled, late, or cannot get its uncached page from the publisher is interrupted for that reason, and one that may not use the network or store its answer raises |
| `CompleteExport.ChainStep` | app/hpd/complete.py:108-110 | replacing the continuation of the query leads to the next page of the chain |
| `CompleteExport.ChainQueriesDiffer` | app/hpd/complete.py:91-93 | no two pages of a chain have the same query, so storing one never replaces another |
| `CompleteExport.PinsOutliveLookup` | app/hpd/complete.py:91-93 | fetching another page, with its store and eviction, leaves the pinned pages cached and pinned |
| `CompleteExport.PinPage` | app/hpd/complete.py:92-93 | a pin takes effect exactly when the row is still cached and the workspace writable; the page is then held and pinned |
| `CompleteExport.Release` | app/hpd/complete.py:161-168 | unpins in reverse order; with best effort each pin goes exactly when it can be written, on the normal path exactly when it and all later ones can |
| `CompleteExport.ReleaseFreesAll` | app/hpd/complete.py:115-119 | if every unpin could write, no page of the run is pinned and no other row gained a pin |
| `CompleteExport.ReleaseDuringMaintenance` | app/hpd/complete.py:161-168 | the counterexample to releasing on every exit: while maintenance is active every pin of the run remains |
| `SnapshotLoad.HpdLoader.RunUntilFinished` | app/ingestion/hpd_violations.py:300-428 | for every schedule of crashes, a run resumed in its mode keeps and extends the pages it has recorded, and finishes once more attempts make six commits than records are left; finished, its manifest records exactly every dataset row, for a delta every row with a status date from 14 days before the watermark on, and the table holds them; a delta makes the table hold every dataset row if it held the others before; the watermark changes only on completion, and then to the greatest status date of the table; manifests and the source versions of other runs are never lost or changed |
| `SnapshotLoad.HpdLoader.Attempt` | app/ingestion/hpd_violations.py:300-428 | one attempt never falls back behind the recorded pages, and with six commits it finishes or records more |
| `SnapshotLoad.FinishedAgrees` | app/ingestion/hpd_violations.py:256-269 | rows that agreed outside the scope of a finished run still agree, so all do |
| `SnapshotLoad.HpdLoader.Load` | app/ingestion/hpd_violations.py:300-428 | one run stopped after any number of commits keeps the checkpoint resumable; resumed, it keeps and extends its recorded pages; it changes rows only into dataset rows and keeps the watermark unless it finishes; it finishes exactly when its commits suffice for the beginning, two for each page and one for the end, and otherwise has recorded a full page for every two |
| `SnapshotLoad.HpdLoader.LoadPage` | app/ingestion/hpd_violations.py:375-409 | the upsert commits before the checkpoint: a crash between them repeats the page and loses nothing |
| `SnapshotLoad.HpdLoader.LoadPages` | app/ingestion/hpd_violations.py:375-409 | the page loop records a full page for every two commits, the last one shorter, and ends exactly when the listing is recorded or the commits are used up |
| `SnapshotLoad.HpdLoader.Begin` | app/ingestion/hpd_violations.py:309-371 | a run that is resumed keeps its pages and key, any other starts with none, at any crash point leaving a checkpoint that can be continued; it makes exactly three commits for a new run, two or none for a resumed one |
| `SnapshotLoad.HpdLoader.Finish` | app/ingestion/hpd_violations.py:411-427 | publishes the manifest, the completion and the greatest stored status date in one commit |
| `SnapshotLoad.HpdLoader.WriteRecords` | app/ingestion/hpd_violations.py:395-397 | a committed page is in the table and earlier pages still are |
| `SnapshotLoad.AutoResumesOnlyFull` | app/ingestion/hpd_violations.py:312-321 | with `auto` an interrupted run is continued if and only if it was a full run; an interrupted delta is followed by a full run |
| `SnapshotLoad.AutoFollows` | app/ingestion/hpd_violations.py:312-317 | after a completed run `auto` runs a delta if and only if there is a watermark, and resumes nothing |
| `SnapshotLoad.RequestedModes` | app/ingestion/hpd_violations.py:312-317 | a first run is full; a requested mode is obeyed except for a delta without a watermark |
| `SnapshotLoad.FetchedContinues` | app/ingestion/hpd_violations.py:240-272 | a page fetched with the key of the last record is the next stretch of the listing, in full and in delta mode |
| `SnapshotLoad.DeltaScope` | app/ingestion/hpd_violations.py:341-344 | a delta leaves out exactly the rows without a status date or with one more than 14 days before the watermark |
| `SnapshotLoad.ScannedNext` | app/ingestion/hpd_violations.py:383-408 | an empty page means the listing is exhausted; any other page extends the scanned prefix |
| `SnapshotLoad.PagesAreDisjoint` | app/ingestion/hpd_violations.py:392-394 | no page is recorded twice: different manifest pages share no record |
| `SnapshotLoad.HoldsKept` | app/ingestion/hpd_violations.py:395-397 | rows already agreeing with the dataset stay so |
| `SnapshotLoad.LatestStatus` | app/ingestion/hpd_violations.py:420-424 | the greatest status date in the table |
| `ViolationTable.BulkUpsert` | app/ingestion/hpd_violations.py:160-181 | batches produce the same table and the same counts as writing row by row, and succeed on distinct ids |
| `ViolationTable.UpsertEach` | app/ingestion/hpd_violations.py:88-119 | row-by-row writing produces the upserted table, with created plus updated equal to the number of records |
| `ViolationTable.UpsertBatch` | app/ingestion/hpd_violations.py:166-179 | one set-based statement equals sequential writing exactly on batches without repeated ids |
| `ViolationTable.CreatedByDistinct` | app/ingestion/hpd_violations.py:169-178 | in a batch of distinct ids the rows created are those not counted as existing |
| `ViolationTable.UpsertedHolds` | app/ingestion/hpd_violations.py:188-198 | each record of distinct ids ends up in the table |
| `ViolationTable.UpsertedAppend` | app/ingestion/hpd_violations.py:184-185 | writing in batches is writing in order, for table and counts |
| `CorpusRuns.Run` | app/corpus/service.py:351-495 | in every run of installs, activations, rollbacks, pack and resource operations and complete or interrupted indexing each request does what it asks for; afterwards `verify` accepts every generation, `corpus_state` names the only active generation, active and retained ones are searchable, nothing stored is lost or altered, pack and resource operations keep a complete core complete, and with increasing times the active generation is the newest |
| `CorpusRuns.Perform` | app/corpus/service.py:110-202 | each request succeeds exactly under its condition, does what it asks for, and keeps what every step keeps |
| `CorpusRuns.RollBackTwice` | app/corpus/service.py:287-306 | with increasing times two rollbacks return to the starting generation and the second never fails; the first fails exactly when nothing is retained |
| `CorpusRuns.InstalledSearchable` | app/corpus/indexing.py:107-225 | after an activated install and a finished indexing run every section of every artifact is ready in the active generation |
| `CorpusRuns.Replay` | app/corpus/resources.py:749-754 | a committed operation repeated under its id, with any operations in between, returns the same result and changes no table, file or receipt |
| `CorpusTables.VerifyAccepts` | app/corpus/service.py:351-495 | every generation of a sound corpus is accepted |
| `CorpusTables.AllVerify` | app/corpus/service.py:497-513 | `verify` accepts every generation of a sound corpus |
| `CorpusTables.VerifyDecides` | app/corpus/service.py:351-495 | `verify` accepts a generation if and only if each of its sources has its file with the content of its hash, each member is indexed, each law chunk is cited and each ready chunk has an embedding of the profile |
| `CorpusGenerations.BuildFtsIndexes` | app/corpus/service.py:1015-1030 | indexing gives every member chunk a row, none a second one and no other chunk any |
| `CorpusGenerations.PublishKeeps` | app/corpus/service.py:711-834 | publishing keeps the whole invariant |
| `CorpusGenerations.PublishSound` | app/corpus/service.py:711-834 | publishing keeps what `verify` looks at |
| `CorpusGenerations.PublishReadsBack` | app/corpus/service.py:672-691 | publishing a source-to-version map with activation and reading the active map back is the identity; the generation is partial exactly when some core source is missing; members are exactly the chunks of the selected versions |
| `CorpusGenerations.PublishFrame` | app/corpus/service.py:711-834 | publishing leaves modules, versions, chunks and embeddings alone and adds one generation |
| `CorpusGenerations.PublishPreserves` | app/corpus/service.py:711-834 | nothing stored before is altered by publishing |
| `CorpusGenerations.PublishedFlagsAreEligible` | app/corpus/service.py:777-780 | a newly published generation flags only chunks of selected sources that allow model use |
| `CorpusGenerations.PublishedReadiness` | app/corpus/service.py:767-788 | the flags of a new generation are exactly the eligible chunks with an embedding of the inherited profile, and its readiness says whether these are none, some or all, and whether the core is complete |
| `CorpusGenerations.ActivateKeeps` | app/corpus/service.py:1032-1053 | activating a searchable generation keeps the invariant, in particular the single active status |
| `CorpusGenerations.AdvancesInOrder` | app/corpus/service.py:1032-1053 | with increasing times every step keeps the active generation the one activated last |
| `CorpusGenerations.TwoRollbacks` | app/corpus/service.py:287-306 | two rollback targets in a row return to the start |
| `CorpusSources.StoreSourceKeeps` | app/corpus/service.py:836-995 | storing a source keeps the invariant and every file reference, only extends the tables, and returns a version that means what the artifact means; the chunks of a new version are exactly the parsed sections, those of a known one the same sections up to whitespace |
| `CorpusSources.StoreSourceRows` | app/corpus/service.py:836-905 | storing a source writes its module row with model use and enablement, the new validators of its version, for a new version the artifact's file and time, and changes no other row |
| `CorpusSources.StoreSourceSucceeds` | app/corpus/service.py:866-995 | a source can be stored if and only if its meaning is known or its section keys are distinct |
| `CorpusSources.CheckSource` | app/corpus/service.py:1179-1203 | a source is refused exactly if it is unknown, does not parse, fails its thresholds, has no section or a blank one, or is a law with an uncited section |
| `CorpusSources.RecheckedKeeps` | app/corpus/service.py:872-881 | downloading a version again changes its validators and nothing else |
| `CorpusSources.MeaningIsUnique` | app/corpus/service.py:872-906 | at most one stored version of a parser means what the artifact means, and storing it again returns that version and adds nothing |
| `CorpusSources.WithVersionKeeps` | app/corpus/service.py:908-995 | a new version with its chunks keeps the invariant |
| `CorpusSources.WithVersionChunks` | app/corpus/service.py:935-967 | the chunks of a new version are exactly its parsed sections, one row each with its own citation, title and text |
| `CorpusSources.WithVersionContent` | app/corpus/service.py:908-995 | a new version's chunks are its sections word for word, and every version still has exactly the sections of its meaning as chunks |
| `CorpusInstall.Install` | app/corpus/service.py:110-178 | succeeds if and only if the artifacts are valid and storable and the core is covered, may be partial, or nothing is new; keeps the invariant; the generation selects for each artifact a version that means it and whose chunks are exactly its parsed sections up to whitespace, and for every other slug the version it had; the modules of the artifacts allow model use and are enabled and the others are as before; each new version is one of the artifacts, with its file, time and headers and its sections word for word; it is the active one exactly when every artifact means what the active versions mean; after any install, successful or failed, every stored version has its file and none of the call's unreferenced files remain; a failure commits nothing |
| `CorpusInstall.InstalledMembers` | app/corpus/service.py:110-178 | every parsed section of an installed artifact, with its citation, title and up to whitespace its text, is a member of the generation and indexed |
| `CorpusInstall.InstalledEligible` | app/corpus/service.py:842-862 | after an activated install every section of every artifact is eligible for the embedding index |
| `CorpusInstall.InstallTwice` | app/corpus/service.py:110-178 | after any successful install a second one with the same arguments succeeds, and returns the first generation if and only if the generation was activated or the artifacts said nothing new beforehand |
| `CorpusInstall.InstallableAgain` | app/corpus/service.py:110-178 | what was installed can be installed again, for every combination of flags |
| `CorpusInstall.StagedInstallsDiffer` | app/corpus/service.py:164-173 | the counterexample: without activation the same artifacts are staged under two generations |
| `CorpusInstall.StoreSources` | app/corpus/service.py:154-162 | the loop succeeds exactly when every artifact can be stored; it selects for every artifact a version of its meaning whose chunks are its sections, keeps all other selections, and changes no selection when the artifacts are redundant |
| `CorpusInstall.CheckArtifacts` | app/corpus/service.py:117-132 | artifacts are let through exactly if there are some, none twice, and each of them valid |
| `CorpusInstall.InstallTransaction` | app/corpus/service.py:147-173 | the transaction of an install commits all or nothing, succeeds exactly when the install is possible, and selects for each artifact a version with its meaning and its sections as chunks |
| `CorpusInstall.PublishInstall` | app/corpus/service.py:164-173 | returns the active generation or publishes a new one; fails exactly when the core is incomplete, may not be, and something is new |
| `CorpusInstall.WriteFiles` | app/corpus/service.py:1206-1230 | every artifact file exists afterwards and files still hold the content they are named by |
| `CorpusInstall.RemoveUnreferenced` | app/corpus/service.py:997-1013 | removes exactly the given files that no version names |
| `CorpusInstall.ActiveMapOk` | app/corpus/service.py:672-691 | the active map maps every slug to one of its own stored versions and holds exactly the active sources |
| `CorpusChanges.RemovePack` | app/corpus/service.py:606-623 | succeeds exactly for optional slugs of which one is active; the new active sources are the old ones without the pack; a complete core stays complete |
| `CorpusChanges.RestorePack` | app/corpus/service.py:625-655 | succeeds exactly when some optional slug has a stored version; each such slug gets a latest version, all others keep theirs; a complete core stays complete |
| `CorpusChanges.CheckPack` | app/corpus/service.py:657-670 | slugs are let through exactly if there are some, all packaged and none of the core |
| `CorpusChanges.SelectLatest` | app/corpus/service.py:629-643 | the restore loop selects a latest version for each slug that has one |
| `CorpusChanges.PopAll` | app/corpus/service.py:615-616 | the removal loop leaves exactly the other slugs |
| `CorpusChanges.LatestVersion` | app/corpus/service.py:636-641 | a version retrieved last, or none exactly when none is stored |
| `CorpusChanges.SelectVersions` | app/corpus/service.py:693-709 | publishing stored versions always succeeds, makes exactly them active, and flags only chunks that allow model use |
| `CorpusChanges.Rollback` | app/corpus/service.py:287-306 | activates a retained generation of greatest activation time, and fails exactly when there is none |
| `CorpusChanges.ActivateCheckedKeeps` | app/corpus/service.py:180-202 | a checked activation keeps the invariant and makes the generation's sources the active ones |
| `CorpusMutations.CorpusService.InstallArtifacts` | app/corpus/service.py:110-178 | the install over storage: exact success, else the first reason against it, invariant, selection, contents, atomicity and tidy files |
| `CorpusMutations.CorpusService.Activate` | app/corpus/service.py:180-202 | succeeds exactly for a known searchable generation that is complete or allowed to be partial, else says which of these it is not |
| `CorpusMutations.CorpusService.Rollback` | app/corpus/service.py:287-306 | the rollback over storage |
| `CorpusMutations.CorpusService.RemoveSources` | app/corpus/service.py:606-623 | pack removal over storage, core kept |
| `CorpusMutations.CorpusService.RestoreSources` | app/corpus/service.py:625-655 | pack restoral over storage, core kept |
| `UserResources.ResourceService.Add` | app/corpus/resources.py:57-99 | succeeds exactly for valid metadata and a readable file that is a duplicate or can be stored; a duplicate exactly when some user version has the content, and then names the latest and changes nothing; otherwise a new resource whose version, with exactly the parsed sections as its chunks, joins the active ones; the result counts the chunks and carries the warnings; with a receipt nothing but the receipt's answer |
| `UserResources.ResourceService.ReplaceFile` | app/corpus/resources.py:101-138 | succeeds exactly for a known resource, the expected version, valid metadata and a file that can be read and stored, else with the error of the first of these that fails; the resource's active version is then that content under that metadata, a version stored now has exactly the parsed sections as its chunks, all other active sources stay, and the result says so, with chunk count and warnings |
| `UserResources.ResourceService.EditMetadata` | app/corpus/resources.py:140-166 | succeeds exactly when the active file can replace itself, and publishes its own content under the new metadata, with its parsed sections as the chunks of a version stored now |
| `UserResources.ResourceService.Remove` | app/corpus/resources.py:168-199 | succeeds exactly for a known resource; the active sources lose its version and nothing else; the result names that version and the new generation |
| `UserResources.ResourceService.Restore` | app/corpus/resources.py:201-239 | succeeds exactly for a known resource and a version of it; selects the given version or a latest one, and the result names it and counts its chunks |
| `UserResources.ResourceService.SetModelUse` | app/corpus/resources.py:241-278 | succeeds exactly for a known resource; sets its flag and keeps the active sources; if the resource is active a new generation is, whose flags and readiness are what embeddings and model use make them; after a denial no ready chunk of the active generation belongs to the resource |
| `UserResources.InstallVersion` | app/corpus/resources.py:474-662 | file first, then one transaction with its receipt; succeeds exactly when the resource is as expected and the version can be stored; a version stored now has exactly the parsed sections as its chunks; a failed transaction takes its unreferenced file back and changes no table |
| `UserResources.DeniedButReady` | app/corpus/resources.py:634-643 | the counterexample: a resource added without model use, allowed it, indexed and replaced by its first file is denied model use while the active generation keeps its chunks ready |
| `UserResources.FindDuplicate` | app/corpus/resources.py:664-693 | a latest user version with the content, or none exactly when there is none |
| `UserResources.ReadArtifact` | app/corpus/resources.py:457-472 | the file of an active version exists and holds the content of its hash |
| `CorpusResources.InstallUserVersion` | app/corpus/resources.py:505-660 | succeeds exactly when the version is stored or storable; a version stored now has the uploaded file, this time and exactly the parsed sections as its chunks, and no other version row changes; it becomes the resource's only active one with the module row of its metadata, and the generation is kept exactly when it already was; with model use denied no ready chunk belongs to the resource if and only if the version was not active before or none did before |
| `CorpusResources.StoreUserVersionKeeps` | app/corpus/resources.py:511-632 | module, version and chunk rows keep the invariant and extend the tables; a version stored now has exactly the parsed sections as its chunks, a known one keeps its own |
| `CorpusResources.StoreUserVersionRows` | app/corpus/resources.py:548-590 | a new version row has the uploaded file and is retrieved now, and the others keep their rows |
| `CorpusResources.UserVersionTells` | app/corpus/resources.py:487-504 | versions are the same exactly for the same resource, file and metadata digest |
| `CorpusResources.SelectUserVersion` | app/corpus/resources.py:634-660 | the version becomes the resource's only active one, all others stay, and a denied resource stays searched by embedding if and only if the version was active and searched before |
| `CorpusResources.RemoveUser` | app/corpus/resources.py:176-188 | the transaction of a removal: selection, module row and core |
| `CorpusResources.RestoreUser` | app/corpus/resources.py:215-227 | the transaction of a restoral: selection, module row and core |
| `CorpusResources.SetModelUse` | app/corpus/resources.py:253-267 | the transaction of a model-use change; an active resource is republished in a new generation with fresh flags and readiness; a denied resource has no ready chunk in the active generation |
| `CorpusResources.UserKeepsCore` | app/corpus/resources.py:634-643 | changing one user resource never turns a complete core corpus into a partial one |
| `Receipts.RoundTrip` | app/corpus/resources.py:808-838 | a receipt decodes to its result if and only if no optional field is an empty string |
| `Receipts.ReceiptStored` | app/corpus/resources.py:799-821 | a stored receipt is found under its id and every other receipt reads as before |
| `Receipts.StoreReceipt` | app/corpus/resources.py:808-821 | stores under the operation id, or under a new one if it is empty |
| `CorpusRuns.ReceiptLasts` | app/corpus/resources.py:799-838 | a committed result stays readable as long as receipts are kept |
| `EmbeddingIndexer.IndexRun` | app/corpus/indexing.py:107-225 | finishes exactly when the commits suffice: one to stage, one for each missing chunk and each batch, one to activate; an invalid batch size or a missing corpus has its own error; stopped before, it leaves the active generation and every embedding and has stored exactly as many missing chunks as its commits pay for, so the next run's missing set is the remainder; finished, it never trips the coverage guard, and embedded plus reused is the eligible chunk count |
| `EmbeddingIndexer.IndexUntilDone` | app/corpus/indexing.py:107-225 | for every schedule of interruptions each missing chunk is stored at most once in all; once more attempts make two commits than chunks are missing the run is done, every missing chunk is stored exactly once and the active generation flags exactly the eligible chunks |
| `EmbeddingIndexer.RunProgresses` | app/corpus/indexing.py:139-166 | two commits store a missing chunk, or finish when none is missing |
| `EmbeddingIndexer.CorpusEmbeddingIndexer.IndexActive` | app/corpus/indexing.py:107-225 | the same exact run over storage, with the whole corpus invariant |
| `EmbeddingIndexer.CorpusEmbeddingIndexer.EstimateActive` | app/corpus/indexing.py:53-105 | the estimate counts exactly what a run embeds and reuses |
| `EmbeddingIndexer.StageActive` | app/corpus/indexing.py:227-323 | stages a copy of the active generation whose flags are the reusable chunks; missing and reused partition the eligible chunks |
| `EmbeddingIndexer.StoreBatches` | app/corpus/indexing.py:139-166 | after any number of commits the stored chunks are a prefix of the missing ones, exactly as long as the commits allow, flagged up to a whole batch |
| `EmbeddingIndexer.PutBatch` | app/corpus/indexing.py:153-154 | one embedding more for each stored chunk, its own vector, and no other row touched |
| `CommitBudget.AccountsNext` | app/corpus/indexing.py:139-166 | one turn of the batch loop either pays for the whole batch and its flags or stops with as many chunks stored as the budget has room for |
| `CommitBudget.AccountsEnd` | app/corpus/indexing.py:139-166 | a loop that got through all batches has spent one commit for each chunk and each batch |
| `CommitBudget.TurnsMade` | app/ingestion/hpd_violations.py:375-409 | turns of two commits that each read a full page take as many as the rest of the listing has pages, or use the commits up |
| `EmbeddingCommits.StageIndexes` | app/corpus/indexing.py:227-323 | the staged copy keeps the invariant |
| `EmbeddingCommits.PutIndexes` | app/corpus/embeddings.py:65-108 | storing the vector of a missing chunk keeps the invariant and alters no other embedding |
| `EmbeddingCommits.FlagIndexes` | app/corpus/indexing.py:155-163 | flagging stored chunks keeps every flag backed |
| `EmbeddingCommits.FinalizeSucceeds` | app/corpus/indexing.py:172-224 | with all missing chunks stored and flagged the coverage guard passes and the copy becomes active with its readiness |
| `EmbeddingCommits.FinalizeGuards` | app/corpus/indexing.py:172-190 | the coverage guard lets a generation through exactly when every eligible member is ready |
| `EmbeddingCommits.RunsCompose` | app/corpus/indexing.py:107-225 | two runs store disjoint chunks and compose to one run |
| `EmbeddingCommits.IndexingMisses` | app/corpus/indexing.py:274-280 | what is missing afterwards is what was missing less what was stored |
| `CorpusBundle.RoundTrip` | app/corpus/bundle.py:109-163 | export and import into an empty workspace give exactly the official sources, chunks and embeddings of the generation and verify; the whole invariant holds there if and only if the generation was not being embedded |
| `CorpusBundle.EmbeddingBundleActivates` | app/corpus/bundle.py:134-163 | the counterexample: a bundle of a generation still being embedded becomes active in an empty workspace |
| `CorpusBundle.UserBundleActivates` | app/corpus/bundle.py:372-443 | the counterexample for hand-made bundles: the validator lets a generation name a stored user version, which the import activates |
| `CorpusBundle.Transfer` | app/corpus/bundle.py:109-163 | an exported bundle imports into a workspace exactly when its generation is not there yet, the versions, chunks and embeddings both have say the same (where a version is stored and when it was retrieved, and what a module allows, make no difference), partiality is allowed and a merge with user resources has its core; rows that were there stay, the others are the bundle's; the active user versions are unchanged, `verify` accepts every generation, and the whole invariant holds if and only if no two versions of a source mean the same and the generation it activates can be searched |
| `CorpusBundle.AgreeExactly` | app/corpus/bundle.py:510-578 | conflicts with an exported bundle are exactly disagreements with the exported generation; two workspaces with the same packaged sources never disagree about a module |
| `CorpusBundle.SharedSourceImports` | app/corpus/bundle.py:510-578 | for any source: a workspace that downloaded it itself imports a bundle made from another download of the same bytes, keeps its own row and activates it |
| `CorpusBundle.ExportValidates` | app/corpus/bundle.py:166-307 | a bundle exported from a corpus that keeps its invariant passes the record validator and holds exactly the official part |
| `CorpusBundle.ValidatesExactly` | app/corpus/bundle.py:372-443 | the validator accepts exactly official rows that refer to each other and artifacts with the content they are named by |
| `CorpusBundle.ExportSucceeds` | app/corpus/bundle.py:166-193 | an export succeeds exactly for a known generation with an official source |
| `CorpusBundle.ExportedContent` | app/corpus/bundle.py:166-307 | every version in an exported bundle comes with exactly the chunks of its meaning |
| `CorpusBundle.Import` | app/corpus/bundle.py:109-163 | succeeds if and only if the bundle validates, no row or generation conflicts, may be partial, and can be merged when user resources are active; a failed import has the error of the first reason against it and changes no table; a row that was there stays and one that was not is that of the bundle; for any validated bundle the active user versions stay unchanged if and only if it is not activated or names no user version |
| `CorpusBundle.MergeUsers` | app/corpus/bundle.py:134-157 | succeeds exactly when the bundle names its own versions and the core is complete or need not be; the merged generation selects the active user versions and the bundle's |
| `CorpusBundle.InsertRecords` | app/corpus/bundle.py:496-557 | succeeds exactly if the generation is new, shared modules have the same type, shared versions the same meaning and validators, shared chunks and embeddings are equal, and what the generation names exists; existing rows stay as they are and the bundle's are added |
| `CorpusBundle.InsertableExactly` | app/corpus/bundle.py:560-578 | the row comparison of an import finds a conflict exactly where meaning, validators, type, chunk or embedding differ |
| `CorpusBundle.MergeRows` | app/corpus/bundle.py:510-527 | one table: inserts the missing rows and fails exactly on a row that differs |
| `CorpusBundle.PublishArtifacts` | app/corpus/bundle.py:446-456 | adds exactly the bundle's files, and every version has its file |
| `CorpusBundle.PayloadVersions` | app/corpus/bundle.py:484-493 | one version of the payload per slug |
| `CorpusBundle.InsertedSound` | app/corpus/bundle.py:496-557 | inserting an exported bundle keeps what `verify` looks at |
| `CorpusBundle.MergedContent` | app/corpus/bundle.py:496-557 | after merging rows that agree every version still has exactly the chunks of its meaning |
| `ResourceChunks.ChunkText` | app/corpus/resource_parsers.py:554-619 | for every text: its paragraphs are cut into pieces and the pieces grouped, in the only way that fills every chunk; chunks have at most 4,000 characters and 7,500 UTF-8 bytes, concatenate without whitespace to the input without whitespace, and have consecutive ordinals and paragraph ranges that name the paragraphs where each chunk's text begins and ends |
| `ResourceChunks.CutParagraphs` | app/corpus/resource_parsers.py:561-576 | the first loop makes of every paragraph that fits one piece, and of any other its stripped slices of 1,875 characters that are not blank, each numbered by its paragraph; nothing but whitespace is lost |
| `ResourceChunks.Group` | app/corpus/resource_parsers.py:578-598 | the second loop joins successive pieces with newlines; a chunk of several pieces counts at most 2,500 characters, the next piece would not have fitted, and the count is one too high in every chunk but the first |
| `ResourceChunks.OneChunking` | app/corpus/resource_parsers.py:578-598 | the pieces determine the chunks: there is only one such grouping |
| `ResourceChunks.CutParagraph` | app/corpus/resource_parsers.py:564-576 | a paragraph that fits is one piece, of any other the pieces are its stripped slices of 1,875 characters |
| `ResourceChunks.CutsAre` | app/corpus/resource_parsers.py:561-576 | every piece is a whole paragraph that fits or the k-th slice of one that does not |
| `ResourceChunks.ParagraphsAre` | app/corpus/resource_parsers.py:561 | the paragraphs are the stripped lines that are not blank |
| `ResourceChunks.SplitNewlinesJoins` | app/corpus/resource_parsers.py:561 | splitting loses nothing but the newlines |
| `ResourceChunks.BytesBound` | app/corpus/resource_parsers.py:570-572 | a text has at least as many UTF-8 bytes as characters and at most four times as many |
| `ResourceChunks.Utf8RoundTrip` | app/corpus/resource_parsers.py:570-572 | the bytes counted are those of a UTF-8 encoding that decodes back to the character |
| `LegalText.NormalizeIdempotent` | app/ingestion/legal_text.py:162-164 | normalising twice is normalising once, and it changes whitespace only |
| `LegalText.NormalizeKeepsLines` | app/ingestion/legal_text.py:162-164 | normalising keeps the words of every line that has any, on a line of their own, with one space between them |
| `LegalText.SplitLinesRejoins` | app/ingestion/legal_text.py:163 | splitting lines removes the breaks and nothing else, and a carriage return with its line feed is one |
| `LegalText.Deduplicate` | app/ingestion/legal_text.py:206-239 | one result per key in order of first appearance, each the earliest among those with fewest contents-style lines, then most lead points, then most text, renumbered from 0 |
| `LegalText.QualityCounts` | app/ingestion/legal_text.py:242-248 | quality counts the contents-style lines after the first, the points in the first line and the characters |
| `LegalText.DeduplicatedKeys` | app/ingestion/legal_text.py:206-239 | results have distinct keys, exactly the keys of the input, and order indexes 0 to n-1 |
| `LegalText.DeduplicatesUnique` | app/ingestion/legal_text.py:206-239 | the specification determines the result |
| `LegalText.DeduplicateIdempotent` | app/ingestion/legal_text.py:206-239 | deduplicating twice is deduplicating once |
| `LegalText.ReadSection` | app/ingestion/legal_text.py:220-226 | one turn of the selection loop keeps the best section and the first position of every key |

## Left out

- HTTP requests, retries, timeouts, the request semaphore and headers: a request is a filter, a sort and a limit over the dataset, or a failure.
- SoQL text, JSON and base64url tokens are faithful encodings of a list of clauses and a record; only the receipt's encoding is modelled field by field.
- Address normalisation, and the "Unknown" that stands for a missing borough, house or street of a candidate.
- Pins surviving a refresh: a store resets the pin (app/hpd/cache.py:187), so pin properties are stated within one export run.
- PropertyCache.CachedPropertyRepository.Read: does not model a corrupt or unreadable file, because the invariant it keeps excludes both.
- CompleteExport.Export: states its result for a dataset that is stable since the oldest cached page; for a moving dataset only the deduplication lemmas apply. Job records are reduced to being reachable or not.
- SnapshotLoad.HpdLoader.Load: leaves out the creation of source rows and the skipped counter; every record has an id. The running maximum of status dates is only used when the table has none, and then equals the old watermark.
- Rows the publisher deleted stay in the table, in the code as in the model; agreement is stated for the rows of the dataset.
- CorpusInstall.Install: the least number of documents and the required citations of a source are one flag of its parser; leaves out failures of the disk in the middle of an install, `last_checked_at` and `check_artifacts`; the counts in a version's validation record follow from its meaning.
- Documents, citations and embedding profiles are not tables of their own; a chunk id carries its document, and an embedding its profile.
- CorpusTables.Verify: the escape check of artifact paths is left out, because a model path cannot leave its directory.
- EmbeddingIndexer.IndexRun: leaves out cost approval, prices, token estimates and the provider call; missing chunks are processed in some order instead of id order.
- UserResources.ResourceService.ReplaceFile: metadata is always given; metadata validation, its digest and the file parsers are functions the model takes as given.
- CorpusBundle.Import: leaves out archive paths, size limits, member hashes and text hashes of hand-made archives.
- `ResourceService.restore` without a version selects a version retrieved last, which need not be the one removed.
- Offsets of DOCX chunks, since joining two slices of a long paragraph adds a newline the source does not have.
- `Catalog.parse` and `Catalog.parseResource` depend on a source's name and bytes alone, where the code also passes content type and address to `artifact_bytes_to_text` and the title to `parse_resource`.
- A meaning is the list of sections with their documents, keys, citations, titles and normalised texts; document titles and documents without sections are left out. A user version's meaning follows from its chunks; the code stores none.
- PDF, DOCX and HTML parsing, citation patterns, prompts, answers and vector arithmetic; the contents-line pattern of deduplication is a parameter.
- The job service, usage ledger, provider gateway, migrations, local retrieval, HTTP routes, command line, launcher and credentials.
